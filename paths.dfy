/**
 * Operating-system paths as the program sees them through Rust's `Path`:
 * a sequence of units, each either a decoded character or a raw byte that is
 * not valid UTF-8. Only the operations the program uses are modelled:
 * `join`, `file_name`, `extension`, `file_stem`, `set_extension` and `to_str`.
 * Paths are compared as sequences.
 */
module Paths {
  import opened Wrappers

  /** A byte that is not decoded text: every byte of an invalid UTF-8 sequence is at least 0x80. */
  newtype byte = b: int | 0x80 <= b < 256 witness 0x80

  datatype PathUnit = Ch(c: char) | RawByte(b: byte)

  type Path = seq<PathUnit>

  const Separator: PathUnit := Ch('/')
  const Dot: PathUnit := Ch('.')

  /** The extension of Emacs Lisp source files, `el`. */
  const ElExtension: Path := [Ch('e'), Ch('l')]

  /** `PathBuf::from(String)`: every character is decoded text. */
  function FromString(s: string): (p: Path)
  {
    seq(|s|, i requires 0 <= i < |s| => Ch(s[i]))
  }

  /** `Path::to_str`: the text of the path, or `None` when some unit is not valid UTF-8. */
  function AsString(p: Path): (r: Option<string>)
    ensures r.Some? <==> forall i :: 0 <= i < |p| ==> p[i].Ch?
    ensures r.Some? ==> |r.value| == |p| && forall i :: 0 <= i < |p| ==> p[i] == Ch(r.value[i])
  {
    if p == [] then Some([])
    else
      match AsString(p[..|p| - 1])
      case None => None
      case Some(s) => if p[|p| - 1].Ch? then Some(s + [p[|p| - 1].c]) else None
  }

  /** Text converts to a path and back unchanged. */
  lemma {:induction false} AsStringFromString(s: string)
    ensures AsString(FromString(s)) == Some(s)
  {
    if s != [] {
      var init := s[..|s| - 1];
      AsStringFromString(init);
      assert FromString(s)[..|s| - 1] == FromString(init);
      assert init + [s[|s| - 1]] == s;
    }
  }

  /** A path that converts to text is the path of that text. */
  lemma FromStringAsString(p: Path)
    requires AsString(p).Some?
    ensures FromString(AsString(p).value) == p
  {
  }

  lemma FromStringAppend(a: string, b: string)
    ensures FromString(a + b) == FromString(a) + FromString(b)
  {
  }

  /** Index of the last occurrence of `u` among the first `n` units of `p`, or -1 when there is none. */
  function LastIndexBelow(p: Path, u: PathUnit, n: nat): (r: int)
    requires n <= |p|
    ensures -1 <= r < n
    ensures r >= 0 ==> p[r] == u
    ensures forall j :: r < j < n ==> p[j] != u
  {
    if n == 0 then -1 else if p[n - 1] == u then n - 1 else LastIndexBelow(p, u, n - 1)
  }

  /** Index of the last occurrence of `u` in `p`, or -1 when there is none. */
  function LastIndexOf(p: Path, u: PathUnit): (r: int)
    ensures -1 <= r < |p|
    ensures r >= 0 ==> p[r] == u
    ensures forall j :: r < j < |p| ==> p[j] != u
  {
    LastIndexBelow(p, u, |p|)
  }

  predicate HasNoSeparator(p: Path) {
    forall i :: 0 <= i < |p| ==> p[i] != Separator
  }

  /** `Path::join` with a relative name: a separator is inserted unless the directory is empty or already ends with one. */
  function Join(dir: Path, name: Path): (p: Path)
  {
    if dir == [] then name
    else if dir[|dir| - 1] == Separator then dir + name
    else dir + [Separator] + name
  }

  /** Under a fixed directory, different names join to different paths. */
  lemma JoinInjective(dir: Path, a: Path, b: Path)
    requires Join(dir, a) == Join(dir, b)
    ensures a == b
  {
    var k := if dir == [] then 0 else if dir[|dir| - 1] == Separator then |dir| else |dir| + 1;
    assert Join(dir, a)[k..] == a;
    assert Join(dir, b)[k..] == b;
  }

  /**
   * `Path::file_name`, for the paths the program builds (a directory joined
   * with an entry name, or a bare name): the text after the last separator.
   * Here a path whose last component is empty, `.` or `..` has none. Rust
   * agrees for the empty path, `.`, and a path whose last component is `..`; for `a/` and
   * `a/.` it skips the trailing separator or `.` and answers `a`, which this
   * function does not.
   */
  function FileName(p: Path): (r: Option<Path>)
  {
    var start := LastIndexOf(p, Separator) + 1;
    var size := |p| - start;
    if size == 0 || (size == 1 && p[start] == Dot) || (size == 2 && p[start] == Dot && p[start + 1] == Dot)
    then None
    else Some(p[start..])
  }

  /**
   * `Path::extension` of a file name: the text after the last `.`, where a name
   * whose only `.` is its first unit (`.emacs`) has none.
   */
  function NameExtension(f: Path): (r: Option<Path>)
  {
    var i := LastIndexOf(f, Dot);
    if i <= 0 then None else Some(f[i + 1..])
  }

  /** `Path::file_stem` of a file name: the part before the extension's dot, or the whole name. */
  function NameStem(f: Path): (r: Path)
  {
    var i := LastIndexOf(f, Dot);
    if i <= 0 then f else f[..i]
  }

  function Extension(p: Path): (r: Option<Path>)
  {
    match FileName(p)
    case None => None
    case Some(f) => NameExtension(f)
  }

  /**
   * `PathBuf::set_extension`: the file name is cut back to its stem and, when
   * the new extension is not empty, `.` and the extension are appended. A
   * path without a file name is left as it is.
   */
  function SetExtension(p: Path, ext: Path): (r: Path)
  {
    match FileName(p)
    case None => p
    case Some(f) =>
      p[..|p| - |f|] + NameStem(f) + (if ext == [] then [] else [Dot] + ext)
  }

  /** A name without separators, joined under a directory, is that path's file name. */
  lemma {:induction false} FileNameOfJoin(dir: Path, name: Path)
    requires HasNoSeparator(name)
    requires name != [] && name != [Dot] && name != [Dot, Dot]
    ensures FileName(Join(dir, name)) == Some(name)
  {
    var p := Join(dir, name);
    assert p[|p| - |name|..] == name;
    var k := LastIndexOf(p, Separator);
    forall j | |p| - |name| <= j < |p|
      ensures p[j] != Separator
    {
      assert p[j] == name[j - (|p| - |name|)];
    }
    assert k < |p| - |name|;
    if dir != [] {
      assert p[|p| - |name| - 1] == Separator;
      assert k == |p| - |name| - 1;
    } else {
      assert k == -1;
    }
  }

  lemma LastIndexOfAbsent(p: Path, u: PathUnit)
    requires forall i :: 0 <= i < |p| ==> p[i] != u
    ensures LastIndexOf(p, u) == -1
  {
  }

  lemma LastIndexOfAt(p: Path, u: PathUnit, k: nat)
    requires k < |p| && p[k] == u
    requires forall j :: k < j < |p| ==> p[j] != u
    ensures LastIndexOf(p, u) == k
  {
  }

  /** A name without separators that does not start with `.` is its own file name. */
  lemma WholeFileName(q: Path)
    requires HasNoSeparator(q) && q != [] && q[0] != Dot
    ensures FileName(q) == Some(q)
  {
    LastIndexOfAbsent(q, Separator);
    assert q[0..] == q;
  }

  /** A non-empty name without separators or dots, followed by `.` and an extension without separators, is its own file name. */
  lemma NameWithExtensionFileName(stem: Path, ext: Path)
    requires stem != [] && forall i :: 0 <= i < |stem| ==> stem[i] != Separator && stem[i] != Dot
    requires forall i :: 0 <= i < |ext| ==> ext[i] != Separator
    ensures HasNoSeparator(stem + [Dot] + ext)
    ensures FileName(stem + [Dot] + ext) == Some(stem + [Dot] + ext)
  {
    var q := stem + [Dot] + ext;
    forall i | 0 <= i < |q| ensures q[i] != Separator {
      if i < |stem| { assert q[i] == stem[i]; }
      else if i > |stem| { assert q[i] == ext[i - |stem| - 1]; }
    }
    assert q[0] == stem[0];
    WholeFileName(q);
  }

  /**
   * A name without separators or dots, followed by `.` and an extension
   * without separators or dots, has that extension and the name as its stem.
   */
  lemma NameWithExtension(stem: Path, ext: Path)
    requires stem != [] && forall i :: 0 <= i < |stem| ==> stem[i] != Separator && stem[i] != Dot
    requires forall i :: 0 <= i < |ext| ==> ext[i] != Separator && ext[i] != Dot
    ensures HasNoSeparator(stem + [Dot] + ext)
    ensures FileName(stem + [Dot] + ext) == Some(stem + [Dot] + ext)
    ensures Extension(stem + [Dot] + ext) == Some(ext)
    ensures NameStem(stem + [Dot] + ext) == stem
  {
    var q := stem + [Dot] + ext;
    NameWithExtensionFileName(stem, ext);
    assert LastIndexOf(q, Dot) == |stem| by {
      forall j | |stem| < j < |q| ensures q[j] != Dot {
        assert q[j] == ext[j - |stem| - 1];
      }
      LastIndexOfAt(q, Dot, |stem|);
    }
    assert q[..|stem|] == stem;
    assert q[|stem| + 1..] == ext;
  }

  /** A name without separators or dots is its own file name and stem, without extension. */
  lemma PlainName(p: Path)
    requires p != [] && forall i :: 0 <= i < |p| ==> p[i] != Separator && p[i] != Dot
    ensures FileName(p) == Some(p) && NameExtension(p) == None && NameStem(p) == p
  {
    LastIndexOfAbsent(p, Separator);
    LastIndexOfAbsent(p, Dot);
    assert p[0..] == p;
    assert p != [Dot] && p != [Dot, Dot];
  }
}
