/**
 * Requirement declarations in Emacs Lisp source text: the anchored line
 * pattern `^\(require '([\w-]+)\)`, the features it captures, the bare file
 * name a feature stands for, and the line-by-line extraction from one file.
 */
module Requires {
  import opened Wrappers
  import opened Paths

  /**
   * The regular-expression class `\w`, restricted to ASCII: letters, digits
   * and underscore.
   */
  predicate IsWordChar(c: char) {
    ('a' <= c <= 'z') || ('A' <= c <= 'Z') || ('0' <= c <= '9') || c == '_'
  }

  /** The capture group's class `[\w-]`. */
  predicate IsNameChar(c: char) {
    IsWordChar(c) || c == '-'
  }

  /** What the capture group `([\w-]+)` can match: one or more name characters. */
  predicate IsFeatureName(s: string) {
    s != [] && forall i :: 0 <= i < |s| ==> IsNameChar(s[i])
  }

  /** None of the characters that delimit the pattern, or a path, can be part of a name. */
  lemma NameCharExclusions(c: char)
    requires IsNameChar(c)
    ensures c != '\'' && c != '(' && c != ')' && c != ' ' && c != '.' && c != '/'
  {
  }

  /** The literal text the pattern demands at the start of the line. */
  const RequirePrefix: string := "(require '"

  /** Length of the longest run of name characters at the start of `s`. */
  function NameRunLength(s: string): (n: nat)
    ensures n <= |s|
    ensures forall j :: 0 <= j < n ==> IsNameChar(s[j])
    ensures n < |s| ==> !IsNameChar(s[n])
  {
    if s == [] || !IsNameChar(s[0]) then 0 else 1 + NameRunLength(s[1..])
  }

  /**
   * The captured feature name of a line, if the line matches. The class
   * `[\w-]` does not contain `)`, so the group can only end where the run of
   * name characters ends, and the match exists exactly when that run is
   * non-empty and followed by `)`.
   */
  function MatchRequire(line: string): (r: Option<string>)
    ensures r.Some? ==> IsFeatureName(r.value)
    ensures r.Some? ==> |RequirePrefix| + |r.value| < |line|
    ensures r.Some? ==> line[..|RequirePrefix| + |r.value| + 1] == RequirePrefix + r.value + ")"
  {
    if |line| < |RequirePrefix| || line[..|RequirePrefix|] != RequirePrefix then None
    else
      var rest := line[|RequirePrefix|..];
      var n := NameRunLength(rest);
      if 0 < n < |rest| && rest[n] == ')' then Some(rest[..n]) else None
  }

  lemma {:induction false} NameRunLengthOf(name: string, tail: string)
    requires forall i :: 0 <= i < |name| ==> IsNameChar(name[i])
    requires tail != [] && !IsNameChar(tail[0])
    ensures NameRunLength(name + tail) == |name|
  {
    if name != [] {
      assert (name + tail)[1..] == name[1..] + tail;
      NameRunLengthOf(name[1..], tail);
    }
  }

  /**
   * Every line made of the prefix, a feature name, `)` and any remaining text
   * matches, and captures exactly that name. With the contract of
   * MatchRequire this gives: a line yields a requirement exactly when it has
   * this shape.
   */
  lemma MatchRequireComplete(name: string, rest: string)
    requires IsFeatureName(name)
    ensures MatchRequire(RequirePrefix + name + ")" + rest) == Some(name)
  {
    var line := RequirePrefix + name + ")" + rest;
    assert line[..|RequirePrefix|] == RequirePrefix;
    assert line[|RequirePrefix|..] == name + (")" + rest);
    NameRunLengthOf(name, ")" + rest);
    assert (name + (")" + rest))[..|name|] == name;
  }

  /** Text before the declaration, such as indentation, defeats the anchor. */
  lemma UnanchoredLineDoesNotMatch(lead: string, line: string)
    requires lead != [] && lead[0] != '('
    ensures MatchRequire(lead + line) == None
  {
    var l := lead + line;
    if |l| >= |RequirePrefix| {
      assert l[..|RequirePrefix|][0] != RequirePrefix[0];
    }
  }

  /** A feature named in a requirement: `struct Feature(String)`. */
  datatype Feature = Feature(name: string) {
    /** `Feature::to_path_buf`: the name as a path, with its extension set to `el`. */
    function ToPathBuf(): (p: Path) {
      SetExtension(FromString(name), ElExtension)
    }
  }

  lemma {:induction false} NoSeparatorNoDot(name: string)
    requires IsFeatureName(name)
    ensures forall i :: 0 <= i < |FromString(name)| ==> FromString(name)[i] != Separator && FromString(name)[i] != Dot
  {
    forall i | 0 <= i < |FromString(name)|
      ensures FromString(name)[i] != Separator && FromString(name)[i] != Dot
    {
      NameCharExclusions(name[i]);
    }
  }

  /**
   * A feature with a well-formed name becomes the bare relative file name
   * `<name>.el`: no directory part, extension `el` and stem the name itself.
   */
  lemma ToPathBufShape(f: Feature)
    requires IsFeatureName(f.name)
    ensures f.ToPathBuf() == FromString(f.name) + [Dot] + ElExtension
  {
    NoSeparatorNoDot(f.name);
    PlainName(FromString(f.name));
  }

  /** A well-formed feature name becomes `<name>.el`. */
  lemma ToPathBufAppendsEl(f: Feature)
    requires IsFeatureName(f.name)
    ensures f.ToPathBuf() == FromString(f.name + ".el")
  {
    ToPathBufShape(f);
    FromStringAppend(f.name, ".el");
    assert FromString(".el") == [Dot] + ElExtension;
  }

  /**
   * The path of a well-formed feature is a bare relative file name: no
   * directory part, extension `el`, and the name itself as stem.
   */
  lemma ToPathBufIsBareElFile(f: Feature)
    requires IsFeatureName(f.name)
    ensures HasNoSeparator(f.ToPathBuf())
    ensures FileName(f.ToPathBuf()) == Some(f.ToPathBuf())
    ensures Extension(f.ToPathBuf()) == Some(ElExtension)
    ensures NameStem(f.ToPathBuf()) == FromString(f.name)
  {
    ToPathBufShape(f);
    NoSeparatorNoDot(f.name);
    NameWithExtension(FromString(f.name), ElExtension);
  }

  /** The features one line contributes: its capture, or nothing. */
  function LineFeatures(line: string): (r: seq<Feature>)
    ensures |r| <= 1
  {
    match MatchRequire(line)
    case None => []
    case Some(name) => [Feature(name)]
  }

  /** The features of a sequence of lines, one per matching line, in line order. */
  function Requirements(lines: seq<string>): (r: seq<Feature>)
    ensures |r| <= |lines|
    ensures forall k :: 0 <= k < |r| ==> IsFeatureName(r[k].name)
  {
    if lines == [] then [] else Requirements(lines[..|lines| - 1]) + LineFeatures(lines[|lines| - 1])
  }

  /** The features of concatenated text are those of each part, one after the other. */
  lemma {:induction false} RequirementsAppend(a: seq<string>, b: seq<string>)
    ensures Requirements(a + b) == Requirements(a) + Requirements(b)
  {
    if b == [] {
      assert a + b == a;
    } else {
      var b' := b[..|b| - 1];
      assert (a + b)[..|a + b| - 1] == a + b';
      RequirementsAppend(a, b');
    }
  }

  /** The indices of the matching lines, in increasing order. */
  function MatchingLines(lines: seq<string>): (r: seq<nat>)
    ensures forall k :: 0 <= k < |r| ==> r[k] < |lines| && MatchRequire(lines[r[k]]).Some?
    ensures forall i :: 0 <= i < |lines| && MatchRequire(lines[i]).Some? ==> i in r
    ensures forall k, l :: 0 <= k < l < |r| ==> r[k] < r[l]
  {
    if lines == [] then []
    else
      var init := lines[..|lines| - 1];
      MatchingLines(init) + (if MatchRequire(lines[|lines| - 1]).Some? then [|lines| - 1] else [])
  }

  /**
   * Requirements yields exactly one feature per matching line, the k-th
   * feature being the capture of the k-th matching line; duplicates are kept.
   */
  lemma {:induction false} RequirementsByLine(lines: seq<string>)
    ensures |Requirements(lines)| == |MatchingLines(lines)|
    ensures forall k :: 0 <= k < |MatchingLines(lines)| ==>
      Requirements(lines)[k] == Feature(MatchRequire(lines[MatchingLines(lines)[k]]).value)
  {
    if lines != [] {
      var n := |lines| - 1;
      var init, last := lines[..n], lines[n];
      RequirementsByLine(init);
      var found, matching := Requirements(init), MatchingLines(init);
      var tail := LineFeatures(last);
      assert Requirements(lines) == found + tail;
      assert MatchingLines(lines) == matching + if tail == [] then [] else [n];
      forall k | 0 <= k < |MatchingLines(lines)|
        ensures Requirements(lines)[k] == Feature(MatchRequire(lines[MatchingLines(lines)[k]]).value)
      {
        if k < |matching| {
          assert lines[matching[k]] == init[matching[k]];
        }
      }
    }
  }

  /** One line as delivered by `BufReader::lines`: its text, or a read or decoding failure. */
  datatype LineRead = Line(text: string) | Undecodable

  /** A module file as `File::open` finds it. */
  datatype SourceFile = Unopenable | Opened(lines: seq<LineRead>)

  datatype ReadError = OpenFailed | DecodeFailed(line: nat)

  /** Index of the first line that could not be read, or the number of lines. */
  function FirstUndecodable(lines: seq<LineRead>): (i: nat)
    ensures i <= |lines|
    ensures forall j :: 0 <= j < i ==> lines[j].Line?
    ensures i < |lines| ==> lines[i].Undecodable?
  {
    if lines == [] || lines[0].Undecodable? then 0 else 1 + FirstUndecodable(lines[1..])
  }

  function Texts(lines: seq<LineRead>): (r: seq<string>)
    requires forall j :: 0 <= j < |lines| ==> lines[j].Line?
    ensures |r| == |lines| && forall j :: 0 <= j < |lines| ==> r[j] == lines[j].text
  {
    if lines == [] then [] else Texts(lines[..|lines| - 1]) + [lines[|lines| - 1].text]
  }

  lemma TextsStep(lines: seq<LineRead>, i: nat)
    requires i < |lines|
    requires forall j :: 0 <= j <= i ==> lines[j].Line?
    ensures Texts(lines[..i + 1]) == Texts(lines[..i]) + [lines[i].text]
  {
    assert lines[..i + 1][..i] == lines[..i];
  }

  /**
   * What extract_requires returns for a file: an error if it cannot be
   * opened or as soon as a line cannot be read, otherwise the requirements
   * of its lines.
   */
  function Extraction(file: SourceFile): (r: Result<seq<Feature>, ReadError>)
    ensures file.Unopenable? ==> r == Err(OpenFailed)
    ensures file.Opened? && r.Err? ==> r.error.DecodeFailed? && r.error.line < |file.lines|
    ensures file.Opened? && r.Err? ==> file.lines[r.error.line].Undecodable?
    ensures file.Opened? && r.Err? ==> forall j :: 0 <= j < r.error.line ==> file.lines[j].Line?
    ensures file.Opened? && r.Ok? ==> forall j :: 0 <= j < |file.lines| ==> file.lines[j].Line?
  {
    match file
    case Unopenable => Err(OpenFailed)
    case Opened(lines) =>
      var i := FirstUndecodable(lines);
      if i < |lines| then Err(DecodeFailed(i)) else Ok(Requirements(Texts(lines)))
  }

  /** `extract_requires`: reads the lines in order, pushing the capture of every matching line. */
  method ExtractRequires(file: SourceFile) returns (r: Result<seq<Feature>, ReadError>)
    ensures r == Extraction(file)
  {
    if file.Unopenable? {
      return Err(OpenFailed);
    }
    var lines := file.lines;
    var v: seq<Feature> := [];
    var i := 0;
    while i < |lines|
      invariant 0 <= i <= |lines|
      invariant forall j :: 0 <= j < i ==> lines[j].Line?
      invariant v == Requirements(Texts(lines[..i]))
    {
      if lines[i].Undecodable? {
        assert FirstUndecodable(lines) == i;
        return Err(DecodeFailed(i));
      }
      match MatchRequire(lines[i].text) {
        case Some(name) => v := v + [Feature(name)];
        case None =>
      }
      TextsStep(lines, i);
      i := i + 1;
    }
    assert lines[..i] == lines;
    assert FirstUndecodable(lines) == |lines|;
    r := Ok(v);
  }
}
