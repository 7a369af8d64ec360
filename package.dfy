/**
 * The package-version resolver: find the first readable manifest of a project
 * directory, pull the version out of it by that manifest's rules, and format
 * it for display as `v<version>`.
 */
module Package {
  import opened Options
  import opened Tree
  import Str
  import Patterns

  /** A TOML or JSON parser: the parsed document, or None when the text does not parse. */
  type Parser = string -> Option<Value>

  // ---------------------------------------------------------------------------
  // format_version
  // ---------------------------------------------------------------------------

  /** What `format_version` produces: starts with `v`, holds no `"`, and has no outer whitespace. */
  predicate IsDisplayVersion(s: string) {
    |s| > 0 && s[0] == 'v' && '"' !in s && Str.Trimmed(s)
  }

  /** Deletes every `"`, trims whitespace, and puts a `v` in front unless one is there already. */
  function FormatVersion(version: string): (r: string)
    ensures IsDisplayVersion(r)
  {
    var cleaned := Str.Trim(Str.RemoveQuotes(version));
    assert '"' !in cleaned by {
      forall k | 0 <= k < |cleaned| ensures cleaned[k] != '"' {
        Str.TrimKeepsOnlyInputChars(Str.RemoveQuotes(version), k);
      }
    }
    if |cleaned| > 0 && cleaned[0] == 'v' then cleaned else "v" + cleaned
  }

  /** The display strings are exactly the strings `format_version` leaves unchanged. */
  lemma FormatVersionFixedPoints(s: string)
    ensures FormatVersion(s) == s <==> IsDisplayVersion(s)
  {
    if IsDisplayVersion(s) {
      Str.TrimPadded([], s, []);
      assert [] + s + [] == s;
    }
  }

  /** Formatting twice is formatting once. */
  lemma FormatVersionIdempotent(s: string)
    ensures FormatVersion(FormatVersion(s)) == FormatVersion(s)
  {
    FormatVersionFixedPoints(FormatVersion(s));
  }

  /** Removing quotes from text made only of quotes and whitespace leaves only whitespace. */
  lemma RemoveQuotesOfPadding(p: string)
    requires forall k :: 0 <= k < |p| ==> p[k] == '"' || Str.IsWhitespace(p[k])
    ensures Str.AllWhitespace(Str.RemoveQuotes(p))
  {
    var q := Str.RemoveQuotes(p);
    forall i | 0 <= i < |q| ensures Str.IsWhitespace(q[i]) {
      Str.RemoveQuotesKeepsOnlyInputChars(p, i);
      var k :| 0 <= k < |p| && p[k] == q[i];
    }
  }

  /**
   * Quotes and whitespace around a version are dropped and the version itself
   * is kept character for character, with a `v` added when it lacks one.
   */
  lemma FormatVersionStripsPadding(pre: string, core: string, post: string)
    requires forall k :: 0 <= k < |pre| ==> pre[k] == '"' || Str.IsWhitespace(pre[k])
    requires forall k :: 0 <= k < |post| ==> post[k] == '"' || Str.IsWhitespace(post[k])
    requires '"' !in core && Str.Trimmed(core)
    ensures FormatVersion(pre + core + post) == if |core| > 0 && core[0] == 'v' then core else "v" + core
  {
    var qPre, qPost := Str.RemoveQuotes(pre), Str.RemoveQuotes(post);
    Str.RemoveQuotesAppend(pre + core, post);
    Str.RemoveQuotesAppend(pre, core);
    assert Str.RemoveQuotes(pre + core + post) == qPre + core + qPost;
    RemoveQuotesOfPadding(pre);
    RemoveQuotesOfPadding(post);
    Str.TrimPadded(qPre, core, qPost);
  }

  /** Empty, blank or quotes-only input still gives a non-empty display string: `v`. */
  lemma FormatVersionOfBlank(s: string)
    requires forall k :: 0 <= k < |s| ==> s[k] == '"' || Str.IsWhitespace(s[k])
    ensures FormatVersion(s) == "v"
  {
    FormatVersionStripsPadding(s, [], []);
    assert s + [] + [] == s;
  }

  /**
   * The formatter's unit tests: `0.1.0` and `v0.1.0`, bare, padded with spaces
   * on either or both sides, or wrapped in double quotes, all give `v0.1.0`.
   */
  lemma FormatVersionExamples(pre: string, post: string)
    requires forall k :: 0 <= k < |pre| ==> pre[k] == '"' || Str.IsWhitespace(pre[k])
    requires forall k :: 0 <= k < |post| ==> post[k] == '"' || Str.IsWhitespace(post[k])
    ensures FormatVersion(pre + "0.1.0" + post) == "v0.1.0"
    ensures FormatVersion(pre + "v0.1.0" + post) == "v0.1.0"
  {
    var bare, prefixed := "0.1.0", "v0.1.0";
    assert '"' !in bare && Str.Trimmed(bare) && bare[0] != 'v' && "v" + bare == prefixed;
    assert '"' !in prefixed && Str.Trimmed(prefixed) && prefixed[0] == 'v';
    FormatVersionStripsPadding(pre, bare, post);
    FormatVersionStripsPadding(pre, prefixed, post);
  }

  // ---------------------------------------------------------------------------
  // The seven extractors
  // ---------------------------------------------------------------------------

  /** A JSON document whose `private` entry is the boolean true. */
  predicate IsPrivate(doc: Value) {
    At(doc, ["private"]) == Some(Bool(true))
  }

  /** Cargo.toml: the string at `package.version`. */
  function ExtractCargoVersion(fileContents: string, parseToml: Parser): (r: Option<string>)
    ensures r.Some? <==> parseToml(fileContents).Some? && StringAt(parseToml(fileContents).value, ["package", "version"]).Some?
    ensures r.Some? ==> r.value == FormatVersion(StringAt(parseToml(fileContents).value, ["package", "version"]).value)
    ensures r.Some? ==> IsDisplayVersion(r.value)
  {
    assert ["package", "version"][1..] == ["version"];
    var cargoToml :- parseToml(fileContents);
    var package :- Get(cargoToml, "package");
    var version :- Get(package, "version");
    var rawVersion :- AsStr(version);
    Some(FormatVersion(rawVersion))
  }

  /**
   * package.json: the string at `version`, except that a package whose
   * `private` is true has no version, and neither has one whose version is
   * the text `null`.
   */
  function ExtractPackageVersion(fileContents: string, parseJson: Parser): (r: Option<string>)
    ensures parseJson(fileContents).Some? && IsPrivate(parseJson(fileContents).value) ==> r.None?
    ensures r.Some? <==>
      && parseJson(fileContents).Some?
      && !IsPrivate(parseJson(fileContents).value)
      && StringAt(parseJson(fileContents).value, ["version"]).Some?
      && StringAt(parseJson(fileContents).value, ["version"]).value != "null"
    ensures r.Some? ==> r.value == FormatVersion(StringAt(parseJson(fileContents).value, ["version"]).value)
    ensures r.Some? ==> IsDisplayVersion(r.value)
  {
    var packageJson :- parseJson(fileContents);
    var isPrivate := match Get(packageJson, "private") case Some(p) => AsBool(p) case None => None;
    if isPrivate == Some(true) then None
    else
      var version :- Get(packageJson, "version");
      var rawVersion :- AsStr(version);
      if rawVersion == "null" then None
      else Some(FormatVersion(rawVersion))
  }

  /** pyproject.toml: the string at `tool.poetry.version`. */
  function ExtractPoetryVersion(fileContents: string, parseToml: Parser): (r: Option<string>)
    ensures r.Some? <==> parseToml(fileContents).Some? && StringAt(parseToml(fileContents).value, ["tool", "poetry", "version"]).Some?
    ensures r.Some? ==> r.value == FormatVersion(StringAt(parseToml(fileContents).value, ["tool", "poetry", "version"]).value)
    ensures r.Some? ==> IsDisplayVersion(r.value)
  {
    assert ["tool", "poetry", "version"] == ["tool"] + (["poetry"] + ["version"]);
    var poetryToml :- parseToml(fileContents);
    AtStep(poetryToml, "tool", ["poetry", "version"]);
    var tool :- Get(poetryToml, "tool");
    AtStep(tool, "poetry", ["version"]);
    var poetry :- Get(tool, "poetry");
    var version :- Get(poetry, "version");
    var rawVersion :- AsStr(version);
    Some(FormatVersion(rawVersion))
  }

  /**
   * build.gradle: the value of the first line that reads exactly
   * `version '<value>'` or `version "<value>"`.
   */
  function ExtractGradleVersion(fileContents: string): (r: Option<string>)
    ensures r.Some? ==> IsDisplayVersion(r.value)
  {
    var rawVersion :- Patterns.GradleCapture(fileContents);
    Some(FormatVersion(rawVersion))
  }

  /** There is a version exactly when the pattern matches, and it is the formatted leftmost capture. */
  lemma ExtractGradleVersionCorrect(fileContents: string)
    ensures ExtractGradleVersion(fileContents).None? <==> forall i, v :: !Patterns.IsGradleMatch(fileContents, i, v)
    ensures ExtractGradleVersion(fileContents).Some? ==>
      exists i, v :: Patterns.IsLeftmostGradleMatch(fileContents, i, v) && ExtractGradleVersion(fileContents).value == FormatVersion(v)
  {
    Patterns.GradleCaptureCorrect(fileContents);
  }

  /** composer.json: the string at `version`, unless it is the text `null`. */
  function ExtractComposerVersion(fileContents: string, parseJson: Parser): (r: Option<string>)
    ensures r.Some? <==>
      && parseJson(fileContents).Some?
      && StringAt(parseJson(fileContents).value, ["version"]).Some?
      && StringAt(parseJson(fileContents).value, ["version"]).value != "null"
    ensures r.Some? ==> r.value == FormatVersion(StringAt(parseJson(fileContents).value, ["version"]).value)
    ensures r.Some? ==> IsDisplayVersion(r.value)
  {
    var composerJson :- parseJson(fileContents);
    var version :- Get(composerJson, "version");
    var rawVersion :- AsStr(version);
    if rawVersion == "null" then None
    else Some(FormatVersion(rawVersion))
  }

  /** Project.toml: the string at the top-level `version`. */
  function ExtractProjectVersion(fileContents: string, parseToml: Parser): (r: Option<string>)
    ensures r.Some? <==> parseToml(fileContents).Some? && StringAt(parseToml(fileContents).value, ["version"]).Some?
    ensures r.Some? ==> r.value == FormatVersion(StringAt(parseToml(fileContents).value, ["version"]).value)
    ensures r.Some? ==> IsDisplayVersion(r.value)
  {
    var projectToml :- parseToml(fileContents);
    var version :- Get(projectToml, "version");
    var rawVersion :- AsStr(version);
    Some(FormatVersion(rawVersion))
  }

  /** mix.exs: the text between the first `version: "` and the next `"`. */
  function ExtractMixVersion(fileContents: string): (r: Option<string>)
    ensures r.Some? ==> IsDisplayVersion(r.value)
  {
    var rawVersion :- Patterns.MixCapture(fileContents);
    Some(FormatVersion(rawVersion))
  }

  /** There is a version exactly when the pattern matches, and it is the formatted leftmost capture. */
  lemma ExtractMixVersionCorrect(fileContents: string)
    ensures ExtractMixVersion(fileContents).None? <==> forall i, v :: !Patterns.IsMixMatch(fileContents, i, v)
    ensures ExtractMixVersion(fileContents).Some? ==>
      exists i, v :: Patterns.IsLeftmostMixMatch(fileContents, i, v) && ExtractMixVersion(fileContents).value == FormatVersion(v)
  {
    Patterns.MixCaptureCorrect(fileContents);
  }

  // ---------------------------------------------------------------------------
  // get_package_version
  // ---------------------------------------------------------------------------

  /** The manifest formats, one per extractor. */
  datatype Format = Cargo | Npm | Poetry | Composer | Gradle | JuliaProject | Mix

  datatype Manifest = Manifest(fileName: string, format: Format)

  /** The candidate manifests in the order they are tried. */
  const Manifests: seq<Manifest> := [
    Manifest("Cargo.toml", Cargo),
    Manifest("package.json", Npm),
    Manifest("pyproject.toml", Poetry),
    Manifest("composer.json", Composer),
    Manifest("build.gradle", Gradle),
    Manifest("Project.toml", JuliaProject),
    Manifest("mix.exs", Mix)
  ]

  /** The entries of the table, one by one. */
  lemma ManifestsTable()
    ensures |Manifests| == 7
    ensures Manifests[0] == Manifest("Cargo.toml", Cargo) && Manifests[1] == Manifest("package.json", Npm)
    ensures Manifests[2] == Manifest("pyproject.toml", Poetry) && Manifests[3] == Manifest("composer.json", Composer)
    ensures Manifests[4] == Manifest("build.gradle", Gradle) && Manifests[5] == Manifest("Project.toml", JuliaProject)
    ensures Manifests[6] == Manifest("mix.exs", Mix)
  {
  }

  /** The extractor that belongs to a format. */
  function ExtractFor(format: Format, text: string, parseToml: Parser, parseJson: Parser): Option<string> {
    match format
    case Cargo => ExtractCargoVersion(text, parseToml)
    case Npm => ExtractPackageVersion(text, parseJson)
    case Poetry => ExtractPoetryVersion(text, parseToml)
    case Composer => ExtractComposerVersion(text, parseJson)
    case Gradle => ExtractGradleVersion(text)
    case JuliaProject => ExtractProjectVersion(text, parseToml)
    case Mix => ExtractMixVersion(text)
  }

  /**
   * The version of the project whose files `read` gives (None for a file that
   * is missing or cannot be read). The first readable manifest decides.
   */
  function GetPackageVersion(read: string -> Option<string>, parseToml: Parser, parseJson: Parser): (r: Option<string>)
    ensures r.Some? ==> IsDisplayVersion(r.value)
  {
    if read("Cargo.toml").Some? then
      ExtractCargoVersion(read("Cargo.toml").value, parseToml)
    else if read("package.json").Some? then
      ExtractPackageVersion(read("package.json").value, parseJson)
    else if read("pyproject.toml").Some? then
      ExtractPoetryVersion(read("pyproject.toml").value, parseToml)
    else if read("composer.json").Some? then
      ExtractComposerVersion(read("composer.json").value, parseJson)
    else if read("build.gradle").Some? then
      ExtractGradleVersion(read("build.gradle").value)
    else if read("Project.toml").Some? then
      ExtractProjectVersion(read("Project.toml").value, parseToml)
    else if read("mix.exs").Some? then
      ExtractMixVersion(read("mix.exs").value)
    else
      None
  }

  /** What the resolver does with the text of a manifest of a given format. */
  type Extractor = (Format, string) -> Option<string>

  /** The resolver's extractors, with the two parsers fixed. */
  function Dispatch(parseToml: Parser, parseJson: Parser): Extractor {
    (format, text) => ExtractFor(format, text, parseToml, parseJson)
  }

  /** Reference reading of the dispatch: walk a manifest table from entry `k` and stop at the first readable file. */
  function Probe(read: string -> Option<string>, extract: Extractor, table: seq<Manifest>, k: nat): Option<string>
    requires k <= |table|
    decreases |table| - k
  {
    if k == |table| then None
    else match read(table[k].fileName)
      case Some(text) => extract(table[k].format, text)
      case None => Probe(read, extract, table, k + 1)
  }

  /** The walk over the resolver's table, unrolled over its seven entries. */
  lemma ProbeUnrolled(read: string -> Option<string>, extract: Extractor)
    ensures
      var c, n, p, m, g, j, x := read("Cargo.toml"), read("package.json"), read("pyproject.toml"), read("composer.json"), read("build.gradle"), read("Project.toml"), read("mix.exs");
      Probe(read, extract, Manifests, 0) ==
        if c.Some? then extract(Cargo, c.value)
        else if n.Some? then extract(Npm, n.value)
        else if p.Some? then extract(Poetry, p.value)
        else if m.Some? then extract(Composer, m.value)
        else if g.Some? then extract(Gradle, g.value)
        else if j.Some? then extract(JuliaProject, j.value)
        else if x.Some? then extract(Mix, x.value)
        else None
  {
    ManifestsTable();
    var c, n, p, m, g, j, x := read("Cargo.toml"), read("package.json"), read("pyproject.toml"), read("composer.json"), read("build.gradle"), read("Project.toml"), read("mix.exs");
    assert Probe(read, extract, Manifests, 6) == if x.Some? then extract(Mix, x.value) else None;
    assert Probe(read, extract, Manifests, 5) == if j.Some? then extract(JuliaProject, j.value) else Probe(read, extract, Manifests, 6);
    assert Probe(read, extract, Manifests, 4) == if g.Some? then extract(Gradle, g.value) else Probe(read, extract, Manifests, 5);
    assert Probe(read, extract, Manifests, 3) == if m.Some? then extract(Composer, m.value) else Probe(read, extract, Manifests, 4);
    assert Probe(read, extract, Manifests, 2) == if p.Some? then extract(Poetry, p.value) else Probe(read, extract, Manifests, 3);
    assert Probe(read, extract, Manifests, 1) == if n.Some? then extract(Npm, n.value) else Probe(read, extract, Manifests, 2);
    assert Probe(read, extract, Manifests, 0) == if c.Some? then extract(Cargo, c.value) else Probe(read, extract, Manifests, 1);
  }

  // Each format's entry in the dispatch is its extractor. These one-step unfoldings
  // are helpers: proving the seven together in one lemma is costly for the verifier.

  lemma DispatchCargo(parseToml: Parser, parseJson: Parser, text: string)
    ensures Dispatch(parseToml, parseJson)(Cargo, text) == ExtractCargoVersion(text, parseToml)
  {
  }

  lemma DispatchNpm(parseToml: Parser, parseJson: Parser, text: string)
    ensures Dispatch(parseToml, parseJson)(Npm, text) == ExtractPackageVersion(text, parseJson)
  {
  }

  lemma DispatchPoetry(parseToml: Parser, parseJson: Parser, text: string)
    ensures Dispatch(parseToml, parseJson)(Poetry, text) == ExtractPoetryVersion(text, parseToml)
  {
  }

  lemma DispatchComposer(parseToml: Parser, parseJson: Parser, text: string)
    ensures Dispatch(parseToml, parseJson)(Composer, text) == ExtractComposerVersion(text, parseJson)
  {
  }

  lemma DispatchGradle(parseToml: Parser, parseJson: Parser, text: string)
    ensures Dispatch(parseToml, parseJson)(Gradle, text) == ExtractGradleVersion(text)
  {
  }

  lemma DispatchJuliaProject(parseToml: Parser, parseJson: Parser, text: string)
    ensures Dispatch(parseToml, parseJson)(JuliaProject, text) == ExtractProjectVersion(text, parseToml)
  {
  }

  lemma DispatchMix(parseToml: Parser, parseJson: Parser, text: string)
    ensures Dispatch(parseToml, parseJson)(Mix, text) == ExtractMixVersion(text)
  {
  }

  /** The if/else chain is the table walk with the resolver's extractors. */
  lemma GetPackageVersionIsProbe(read: string -> Option<string>, parseToml: Parser, parseJson: Parser)
    ensures GetPackageVersion(read, parseToml, parseJson) == Probe(read, Dispatch(parseToml, parseJson), Manifests, 0)
  {
    var extract := Dispatch(parseToml, parseJson);
    var c, n, p, m, g, j, x := read("Cargo.toml"), read("package.json"), read("pyproject.toml"), read("composer.json"), read("build.gradle"), read("Project.toml"), read("mix.exs");
    if c.Some? { DispatchCargo(parseToml, parseJson, c.value); }
    if n.Some? { DispatchNpm(parseToml, parseJson, n.value); }
    if p.Some? { DispatchPoetry(parseToml, parseJson, p.value); }
    if m.Some? { DispatchComposer(parseToml, parseJson, m.value); }
    if g.Some? { DispatchGradle(parseToml, parseJson, g.value); }
    if j.Some? { DispatchJuliaProject(parseToml, parseJson, j.value); }
    if x.Some? { DispatchMix(parseToml, parseJson, x.value); }
    ProbeUnrolled(read, extract);
    assert GetPackageVersion(read, parseToml, parseJson) ==
      if c.Some? then extract(Cargo, c.value)
      else if n.Some? then extract(Npm, n.value)
      else if p.Some? then extract(Poetry, p.value)
      else if m.Some? then extract(Composer, m.value)
      else if g.Some? then extract(Gradle, g.value)
      else if j.Some? then extract(JuliaProject, j.value)
      else if x.Some? then extract(Mix, x.value)
      else None;
  }

  /** The walk passes over unreadable files without looking at anything else. */
  lemma {:induction false} ProbeSkipsUnreadable(read: string -> Option<string>, extract: Extractor, table: seq<Manifest>, j: nat, k: nat)
    requires j <= k <= |table|
    requires forall m :: j <= m < k ==> read(table[m].fileName).None?
    ensures Probe(read, extract, table, j) == Probe(read, extract, table, k)
    decreases k - j
  {
    if j < k {
      ProbeSkipsUnreadable(read, extract, table, j + 1, k);
    }
  }

  /**
   * Walking the table from `j` over unreadable files reaches the first readable
   * one, `k`, and returns its extractor's result, whatever that is.
   */
  lemma ProbeReachesFirstReadable(read: string -> Option<string>, extract: Extractor, table: seq<Manifest>, j: nat, k: nat)
    requires j <= k < |table|
    requires forall m :: j <= m < k ==> read(table[m].fileName).None?
    requires read(table[k].fileName).Some?
    ensures Probe(read, extract, table, j) == extract(table[k].format, read(table[k].fileName).value)
  {
    ProbeSkipsUnreadable(read, extract, table, j, k);
  }

  /** Walking a table from `j` past only unreadable files finds no version. */
  lemma {:induction false} ProbeWithoutReadable(read: string -> Option<string>, extract: Extractor, table: seq<Manifest>, j: nat)
    requires j <= |table|
    requires forall m :: j <= m < |table| ==> read(table[m].fileName).None?
    ensures Probe(read, extract, table, j) == None
    decreases |table| - j
  {
    if j < |table| {
      ProbeWithoutReadable(read, extract, table, j + 1);
    }
  }

  /**
   * The result is the extractor output of the first readable manifest, even
   * when that output is None: later manifests are never consulted.
   */
  lemma FirstReadableManifestDecides(read: string -> Option<string>, parseToml: Parser, parseJson: Parser, k: nat)
    requires k < |Manifests|
    requires forall m :: 0 <= m < k ==> read(Manifests[m].fileName).None?
    requires read(Manifests[k].fileName).Some?
    ensures GetPackageVersion(read, parseToml, parseJson)
         == ExtractFor(Manifests[k].format, read(Manifests[k].fileName).value, parseToml, parseJson)
  {
    GetPackageVersionIsProbe(read, parseToml, parseJson);
    ProbeReachesFirstReadable(read, Dispatch(parseToml, parseJson), Manifests, 0, k);
  }

  /**
   * Two directories that agree on every manifest up to and including the first
   * readable one get the same version, whatever else they contain.
   */
  lemma NoFallbackToLaterManifests(read1: string -> Option<string>, read2: string -> Option<string>, parseToml: Parser, parseJson: Parser, k: nat)
    requires k < |Manifests|
    requires forall m :: 0 <= m <= k ==> read1(Manifests[m].fileName) == read2(Manifests[m].fileName)
    requires forall m :: 0 <= m < k ==> read1(Manifests[m].fileName).None?
    requires read1(Manifests[k].fileName).Some?
    ensures GetPackageVersion(read1, parseToml, parseJson) == GetPackageVersion(read2, parseToml, parseJson)
  {
    FirstReadableManifestDecides(read1, parseToml, parseJson, k);
    FirstReadableManifestDecides(read2, parseToml, parseJson, k);
  }

  /** A directory with no readable manifest has no version. */
  lemma NoManifestNoVersion(read: string -> Option<string>, parseToml: Parser, parseJson: Parser)
    requires forall m :: 0 <= m < |Manifests| ==> read(Manifests[m].fileName).None?
    ensures GetPackageVersion(read, parseToml, parseJson) == None
  {
    GetPackageVersionIsProbe(read, parseToml, parseJson);
    ProbeWithoutReadable(read, Dispatch(parseToml, parseJson), Manifests, 0);
  }
}
