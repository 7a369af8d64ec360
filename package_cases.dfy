/**
 * The resolver's unit tests, restated as lemmas. The TOML and JSON tests are
 * stated for any parser that turns the test's text into the test's document;
 * the Gradle and Mix texts are written line by line.
 */
module PackageCases {
  import opened Options
  import opened Tree
  import Str
  import opened Patterns
  import opened PatternFacts
  import opened Package

  lemma FormatsBareRelease()
    ensures FormatVersion("0.1.0") == "v0.1.0"
  {
    FormatVersionExamples("", "");
    assert "" + "0.1.0" + "" == "0.1.0";
  }

  /**
   * A version with no quotes and no outer whitespace, after any run of
   * whitespace and double quotes, only gains the `v`.
   */
  lemma FormatsPaddedVersion(pre: string, core: string, shown: string)
    requires forall k :: 0 <= k < |pre| ==> pre[k] == '"' || Str.IsWhitespace(pre[k])
    requires core != [] && core[0] != 'v' && '"' !in core && Str.Trimmed(core)
    requires shown == "v" + core
    ensures FormatVersion(pre + core) == shown
  {
    FormatVersionStripsPadding(pre, core, []);
    assert pre + core + [] == pre + core;
  }

  lemma FormatsReleaseCandidate()
    ensures FormatVersion("0.1.0-rc1") == "v0.1.0-rc1"
  {
    var v := "0.1.0-rc1";
    assert "v" + v == "v0.1.0-rc1";
    assert v[0] != 'v' && !Str.IsWhitespace(v[|v| - 1]) && '"' !in v;
    FormatsPaddedVersion("", v, "v0.1.0-rc1");
    assert "" + v == v;
  }

  lemma FormatsMixVersions()
    ensures FormatVersion("1.2.3") == "v1.2.3"
    ensures FormatVersion("3.2.1") == "v3.2.1"
  {
    var a, b := "1.2.3", "3.2.1";
    assert "v" + a == "v1.2.3" && "v" + b == "v3.2.1";
    assert a[0] != 'v' && !Str.IsWhitespace(a[|a| - 1]) && '"' !in a;
    assert b[0] != 'v' && !Str.IsWhitespace(b[|b| - 1]) && '"' !in b;
    FormatsPaddedVersion("", a, "v1.2.3");
    FormatsPaddedVersion("", b, "v3.2.1");
    assert "" + a == a && "" + b == b;
  }

  lemma FormatsPrerelease()
    ensures FormatVersion("1.0.0-alpha.3") == "v1.0.0-alpha.3"
  {
    var v := "1.0.0-alpha.3";
    assert "v" + v == "v1.0.0-alpha.3";
    assert v[0] != 'v' && !Str.IsWhitespace(v[|v| - 1]) && '"' !in v;
    FormatsPaddedVersion("", v, "v1.0.0-alpha.3");
    assert "" + v == v;
  }

  /** The pre-release version with build metadata of the tests, written in two pieces. */
  const BuildInfo := "0.9.9-dev+" + "20130417140000.amd64"

  lemma FormatsBuildInfo()
    ensures FormatVersion(BuildInfo) == "v0.9.9-dev+" + "20130417140000.amd64"
  {
    var v := BuildInfo;
    assert "v0.9.9-dev+" == "v" + "0.9.9-dev+";
    assert "v" + v == "v0.9.9-dev+" + "20130417140000.amd64";
    assert v[0] != 'v' && !Str.IsWhitespace(v[|v| - 1]);
    assert '"' !in "0.9.9-dev+" && '"' !in "20130417140000.amd64";
    FormatsPaddedVersion("", v, "v" + v);
    assert "" + v == v;
  }

  // ---------------------------------------------------------------------------
  // TOML and JSON manifests
  // ---------------------------------------------------------------------------

  // The documents the tests' TOML and JSON texts parse to.
  const CargoDoc := Table(map["package" := Table(map["name" := Str("starship"), "version" := Str("0.1.0")])])
  const CargoDocWithoutVersion := Table(map["package" := Table(map["name" := Str("starship")])])
  const NpmDoc := Table(map["name" := Str("spacefish"), "version" := Str("0.1.0")])
  const NpmDocWithoutVersion := Table(map["name" := Str("spacefish")])
  const NpmDocNullVersion := Table(map["name" := Str("spacefish"), "version" := Null])
  const NpmDocNullStringVersion := Table(map["name" := Str("spacefish"), "version" := Str("null")])
  const NpmDocPrivate := Table(map["name" := Str("spacefish"), "version" := Str("0.1.0"), "private" := Bool(true)])
  const PoetryDoc := Table(map["tool" := Table(map["poetry" := Table(map["name" := Str("starship"), "version" := Str("0.1.0")])])])
  const PoetryDocWithoutVersion := Table(map["tool" := Table(map["poetry" := Table(map["name" := Str("starship")])])])
  const ProjectDoc := Table(map["name" := Str("starship"), "version" := Str("0.1.0")])
  const ProjectDocWithoutVersion := Table(map["package" := Table(map["name" := Str("starship")])])

  lemma TomlDocLookups()
    ensures StringAt(CargoDoc, ["package", "version"]) == Some("0.1.0")
    ensures StringAt(CargoDocWithoutVersion, ["package", "version"]) == None
    ensures StringAt(PoetryDoc, ["tool", "poetry", "version"]) == Some("0.1.0")
    ensures StringAt(PoetryDocWithoutVersion, ["tool", "poetry", "version"]) == None
    ensures StringAt(ProjectDoc, ["version"]) == Some("0.1.0")
    ensures StringAt(ProjectDocWithoutVersion, ["version"]) == None
  {
    assert ["package", "version"] == ["package"] + ["version"];
    AtStep(CargoDoc, "package", ["version"]);
    AtStep(CargoDocWithoutVersion, "package", ["version"]);
    assert ["tool", "poetry", "version"] == ["tool"] + (["poetry"] + ["version"]);
    AtStep(PoetryDoc, "tool", ["poetry", "version"]);
    AtStep(PoetryDoc.entries["tool"], "poetry", ["version"]);
    AtStep(PoetryDocWithoutVersion, "tool", ["poetry", "version"]);
    AtStep(PoetryDocWithoutVersion.entries["tool"], "poetry", ["version"]);
  }

  lemma JsonDocLookups()
    ensures StringAt(NpmDoc, ["version"]) == Some("0.1.0") && !IsPrivate(NpmDoc)
    ensures StringAt(NpmDocWithoutVersion, ["version"]) == None
    ensures StringAt(NpmDocNullVersion, ["version"]) == None
    ensures StringAt(NpmDocNullStringVersion, ["version"]) == Some("null")
    ensures IsPrivate(NpmDocPrivate)
  {
  }

  lemma CargoWithVersion(text: string, parseToml: Parser)
    requires parseToml(text) == Some(CargoDoc)
    ensures ExtractCargoVersion(text, parseToml) == Some("v0.1.0")
  {
    TomlDocLookups();
    FormatsBareRelease();
  }

  lemma CargoWithoutVersion(text: string, parseToml: Parser)
    requires parseToml(text) == Some(CargoDocWithoutVersion)
    ensures ExtractCargoVersion(text, parseToml) == None
  {
    TomlDocLookups();
  }

  lemma NpmWithVersion(text: string, parseJson: Parser)
    requires parseJson(text) == Some(NpmDoc)
    ensures ExtractPackageVersion(text, parseJson) == Some("v0.1.0")
  {
    JsonDocLookups();
    FormatsBareRelease();
  }

  lemma NpmWithoutVersion(text: string, parseJson: Parser)
    requires parseJson(text) == Some(NpmDocWithoutVersion)
    ensures ExtractPackageVersion(text, parseJson) == None
  {
    JsonDocLookups();
  }

  /** JSON null is not a string. */
  lemma NpmWithNullVersion(text: string, parseJson: Parser)
    requires parseJson(text) == Some(NpmDocNullVersion)
    ensures ExtractPackageVersion(text, parseJson) == None
  {
    JsonDocLookups();
  }

  /** The string `null` is suppressed. */
  lemma NpmWithNullStringVersion(text: string, parseJson: Parser)
    requires parseJson(text) == Some(NpmDocNullStringVersion)
    ensures ExtractPackageVersion(text, parseJson) == None
  {
    JsonDocLookups();
  }

  /** A private package shows no version even though it has a valid one. */
  lemma NpmPrivatePackage(text: string, parseJson: Parser)
    requires parseJson(text) == Some(NpmDocPrivate)
    ensures ExtractPackageVersion(text, parseJson) == None
  {
    JsonDocLookups();
  }

  lemma PoetryWithVersion(text: string, parseToml: Parser)
    requires parseToml(text) == Some(PoetryDoc)
    ensures ExtractPoetryVersion(text, parseToml) == Some("v0.1.0")
  {
    TomlDocLookups();
    FormatsBareRelease();
  }

  lemma PoetryWithoutVersion(text: string, parseToml: Parser)
    requires parseToml(text) == Some(PoetryDocWithoutVersion)
    ensures ExtractPoetryVersion(text, parseToml) == None
  {
    TomlDocLookups();
  }

  /** composer.json is tested on the same documents as package.json. */
  lemma ComposerWithVersion(text: string, parseJson: Parser)
    requires parseJson(text) == Some(NpmDoc)
    ensures ExtractComposerVersion(text, parseJson) == Some("v0.1.0")
  {
    JsonDocLookups();
    FormatsBareRelease();
  }

  lemma ComposerWithoutVersion(text: string, parseJson: Parser)
    requires parseJson(text) == Some(NpmDocWithoutVersion)
    ensures ExtractComposerVersion(text, parseJson) == None
  {
    JsonDocLookups();
  }

  lemma ProjectWithVersion(text: string, parseToml: Parser)
    requires parseToml(text) == Some(ProjectDoc)
    ensures ExtractProjectVersion(text, parseToml) == Some("v0.1.0")
  {
    TomlDocLookups();
    FormatsBareRelease();
  }

  /** A `version` inside a table is not the top-level one. */
  lemma ProjectWithoutVersion(text: string, parseToml: Parser)
    requires parseToml(text) == Some(ProjectDocWithoutVersion)
    ensures ExtractProjectVersion(text, parseToml) == None
  {
    TomlDocLookups();
  }

  // ---------------------------------------------------------------------------
  // build.gradle
  // ---------------------------------------------------------------------------

  /** The plugins block of the Gradle tests, with its `version` on an indented dependency line. */
  const GradlePlugins: seq<string> := ["plugins {", "    id 'java'", "    id 'test." + "plugin' version '0.2.0'", "}"]

  /** The `java` block that closes the Gradle tests, without its final `}`. */
  const GradleJava: seq<string> := ["java {", "    sourceCompatibility" + JavaVersion8, "    targetCompatibility" + JavaVersion8]

  const JavaVersion8 := " = JavaVersion.VERSION_1_8"

  /** A line without a newline whose first character is not `v` is no `version` line. */
  lemma NotAVersionLine(line: string)
    requires '\n' !in line && line != [] && line[0] != 'v'
    ensures !StartsWith(line, "version ")
  {
    if |line| >= 8 {
      assert line[..8][0] == line[0];
    }
  }

  /** No line of the plugins block is or starts a `version` line, though one holds ` version `. */
  lemma GradlePluginsLines()
    ensures forall k :: 0 <= k < |GradlePlugins| ==> '\n' !in GradlePlugins[k] && !StartsWith(GradlePlugins[k], "version ")
  {
    var plugin := "    id 'test." + "plugin' version '0.2.0'";
    assert '\n' !in "    id 'test." && '\n' !in "plugin' version '0.2.0'";
    assert GradlePlugins == ["plugins {", "    id 'java'", plugin, "}"];
    NotAVersionLine("plugins {");
    NotAVersionLine("    id 'java'");
    NotAVersionLine(plugin);
    NotAVersionLine("}");
  }

  lemma GradlePluginsSkipped(rest: string)
    ensures GradleCapture(JoinLines(GradlePlugins) + rest) == GradleCapture(rest)
  {
    GradlePluginsLines();
    GradleSkipsLines(GradlePlugins, rest);
  }

  /** `version '<v>'` or `version "<v>"` after the plugins block, whatever follows on later lines. */
  lemma GradleCaptureAfterPlugins(line: string, quote: char, v: string, rest: string)
    requires quote in Quotes && line == "version " + [quote] + v + [quote]
    requires v != [] && forall k :: 0 <= k < |v| ==> v[k] !in Quotes
    requires rest == [] || rest[0] == '\n'
    ensures GradleCapture(JoinLines(GradlePlugins) + line + rest) == Some(v)
  {
    assert JoinLines(GradlePlugins) + line + rest == JoinLines(GradlePlugins) + (line + rest);
    GradlePluginsSkipped(line + rest);
    assert line + rest == "version " + [quote] + v + [quote] + rest;
    GradleVersionLine(quote, v, quote, rest);
  }

  /** The formatted Gradle version is the formatted capture. */
  lemma GradleFormatsCapture(text: string, v: string)
    requires GradleCapture(text) == Some(v)
    ensures ExtractGradleVersion(text) == Some(FormatVersion(v))
  {
  }

  lemma GradleSingleQuotes(rest: string)
    requires rest == [] || rest[0] == '\n'
    ensures ExtractGradleVersion(JoinLines(GradlePlugins) + "version '0.1.0'" + rest) == Some("v0.1.0")
  {
    GradleCaptureAfterPlugins("version '0.1.0'", '\'', "0.1.0", rest);
    GradleFormatsCapture(JoinLines(GradlePlugins) + "version '0.1.0'" + rest, "0.1.0");
    FormatsBareRelease();
  }

  lemma GradleDoubleQuotes(rest: string)
    requires rest == [] || rest[0] == '\n'
    ensures ExtractGradleVersion(JoinLines(GradlePlugins) + "version \"0.1.0\"" + rest) == Some("v0.1.0")
  {
    GradleCaptureAfterPlugins("version \"0.1.0\"", '"', "0.1.0", rest);
    GradleFormatsCapture(JoinLines(GradlePlugins) + "version \"0.1.0\"" + rest, "0.1.0");
    FormatsBareRelease();
  }

  /** A release-candidate suffix is kept verbatim. */
  lemma GradleReleaseCandidate(rest: string)
    requires rest == [] || rest[0] == '\n'
    ensures ExtractGradleVersion(JoinLines(GradlePlugins) + "version '0.1.0-rc1'" + rest) == Some("v0.1.0-rc1")
  {
    GradleCaptureAfterPlugins("version '0.1.0-rc1'", '\'', "0.1.0-rc1", rest);
    GradleFormatsCapture(JoinLines(GradlePlugins) + "version '0.1.0-rc1'" + rest, "0.1.0-rc1");
    FormatsReleaseCandidate();
  }

  /** No line of the `java` block is or starts a `version` line. */
  lemma GradleJavaLines()
    ensures forall k :: 0 <= k < |GradleJava| ==> '\n' !in GradleJava[k] && !StartsWith(GradleJava[k], "version ")
  {
    var source := "    sourceCompatibility" + JavaVersion8;
    var target := "    targetCompatibility" + JavaVersion8;
    assert '\n' !in "    sourceCompatibility" && '\n' !in "    targetCompatibility" && '\n' !in JavaVersion8;
    assert GradleJava == ["java {", source, target];
    NotAVersionLine("java {");
    NotAVersionLine(source);
    NotAVersionLine(target);
  }

  lemma GradleJavaSkipped(rest: string)
    ensures GradleCapture(JoinLines(GradleJava) + rest) == GradleCapture(rest)
  {
    GradleJavaLines();
    GradleSkipsLines(GradleJava, rest);
  }

  /** Without a top-level `version` line there is no version, despite the plugin's. */
  lemma GradleWithoutVersion()
    ensures ExtractGradleVersion(JoinLines(GradlePlugins) + JoinLines(GradleJava) + "}") == None
  {
    var tail := JoinLines(GradleJava) + "}";
    GradleNoVersionInLine("}");
    GradleJavaSkipped("}");
    GradlePluginsSkipped(tail);
    assert JoinLines(GradlePlugins) + JoinLines(GradleJava) + "}" == JoinLines(GradlePlugins) + tail;
  }

  // ---------------------------------------------------------------------------
  // mix.exs
  // ---------------------------------------------------------------------------

  /**
   * Concatenation regrouped so that everything after the first part is one string.
   * A helper that keeps the verifier from regrouping long literals on its own.
   */
  lemma GroupAfterFirst(a: string, b: string, c: string, d: string, e: string)
    ensures a + b + c + d + e == a + (b + c + d + e)
  {
  }

  /** The opening lines of the complete Mix project file. */
  const MixModuleOpen: seq<string> := ["defmodule " + "MyApp.MixProject do", "  use Mix.Project", ""]

  /** The lines of `def project` before its `version` entry. */
  const MixProjectOpen: seq<string> := ["  def project do", "    [", "      app: :my_app,"]

  /** No line of the module's opening holds a `v`, so none can start a match. */
  lemma MixModuleOpenSkipped(rest: string)
    ensures MixCapture(JoinLines(MixModuleOpen) + rest) == MixCapture(rest)
  {
    assert 'v' !in "defmodule " && 'v' !in "MyApp.MixProject do";
    assert forall k :: 0 <= k < |MixModuleOpen| ==> 'v' !in MixModuleOpen[k];
    MixSkipsLines(MixModuleOpen, rest);
  }

  /** No line of the opening of `def project` holds a `v`, so none can start a match. */
  lemma MixProjectOpenSkipped(rest: string)
    ensures MixCapture(JoinLines(MixProjectOpen) + rest) == MixCapture(rest)
  {
    forall k | 0 <= k < |MixProjectOpen|
      ensures 'v' !in MixProjectOpen[k]
    {
    }
    MixSkipsLines(MixProjectOpen, rest);
  }

  /** `version: "<v>"` after text without a `v` is the capture, whatever follows. */
  lemma MixCaptureAfter(pre: string, entry: string, v: string, rest: string)
    requires 'v' !in pre && entry == "version: \"" + v + "\""
    requires v != [] && '"' !in v
    ensures MixCapture(pre + entry + rest) == Some(v)
  {
    assert forall k :: 0 <= k < |v| ==> v[k] != '"';
    assert pre + entry + rest == pre + (entry + rest);
    MixSkipsPrefix(pre, entry + rest);
    assert entry + rest == "version: \"" + v + "\"" + rest;
    MixVersionFirst(v, rest);
  }

  /** The indentation and versions of the Mix tests, as far as the pattern cares. */
  lemma MixTestTexts()
    ensures 'v' !in "      "
    ensures '"' !in "1.2.3" && '"' !in "3.2.1" && '"' !in "1.0.0-alpha.3"
    ensures '"' !in BuildInfo
  {
    assert '"' !in "0.9.9-dev+" && '"' !in "20130417140000.amd64";
  }

  /** The formatted Mix version is the formatted capture. */
  lemma MixFormatsCapture(text: string, v: string)
    requires MixCapture(text) == Some(v)
    ensures ExtractMixVersion(text) == Some(FormatVersion(v))
  {
  }

  /** Text without a `v` after the opening of `def project` leaves the capture to what follows. */
  lemma MixProjectThenUnmatched(pre: string, rest: string)
    requires 'v' !in pre
    ensures MixCapture(JoinLines(MixProjectOpen) + pre + rest) == MixCapture(rest)
  {
    MixSkipsPrefix(pre, rest);
    assert JoinLines(MixProjectOpen) + pre + rest == JoinLines(MixProjectOpen) + (pre + rest);
    MixProjectOpenSkipped(pre + rest);
  }

  /** An indented `version: "<v>"` entry after the opening of `def project`, whatever follows it. */
  lemma MixCaptureInProject(entry: string, v: string, rest: string)
    requires entry == "version: \"" + v + "\""
    requires v != [] && '"' !in v
    ensures MixCapture(JoinLines(MixProjectOpen) + "      " + entry + rest) == Some(v)
  {
    MixTestTexts();
    MixCaptureAfter([], entry, v, rest);
    assert [] + entry + rest == entry + rest;
    MixProjectThenUnmatched("      ", entry + rest);
    assert JoinLines(MixProjectOpen) + "      " + entry + rest == JoinLines(MixProjectOpen) + "      " + (entry + rest);
  }

  /** The same entry in the complete project file, after the module's opening lines. */
  lemma MixCaptureInModule(entry: string, v: string, rest: string)
    requires entry == "version: \"" + v + "\""
    requires v != [] && '"' !in v
    ensures MixCapture(JoinLines(MixModuleOpen) + JoinLines(MixProjectOpen) + "      " + entry + rest) == Some(v)
  {
    MixCaptureInProject(entry, v, rest);
    GroupAfterFirst(JoinLines(MixModuleOpen), JoinLines(MixProjectOpen), "      ", entry, rest);
    MixModuleOpenSkipped(JoinLines(MixProjectOpen) + "      " + entry + rest);
  }

  /** The complete project file, whatever follows its `version` entry. */
  lemma MixComplete(rest: string)
    ensures ExtractMixVersion(JoinLines(MixModuleOpen) + JoinLines(MixProjectOpen) + "      " + "version: \"1.2.3\"" + rest) == Some("v1.2.3")
  {
    MixTestTexts();
    MixCaptureInModule("version: \"1.2.3\"", "1.2.3", rest);
    MixFormatsCapture(JoinLines(MixModuleOpen) + JoinLines(MixProjectOpen) + "      " + "version: \"1.2.3\"" + rest, "1.2.3");
    FormatsMixVersions();
  }

  /** A one-line project whose `version` directly follows a comma. */
  lemma MixOneLine()
    ensures ExtractMixVersion("  def project, do: [app: :my_app," + "version: \"3.2.1\"" + "]") == Some("v3.2.1")
  {
    MixTestTexts();
    MixCaptureAfter("  def project, do: [app: :my_app,", "version: \"3.2.1\"", "3.2.1", "]");
    MixFormatsCapture("  def project, do: [app: :my_app," + "version: \"3.2.1\"" + "]", "3.2.1");
    FormatsMixVersions();
  }

  /** A pre-release version, whatever follows its entry. */
  lemma MixPrerelease(rest: string)
    ensures ExtractMixVersion(JoinLines(MixProjectOpen) + "      " + "version: \"1.0.0-alpha.3\"" + rest) == Some("v1.0.0-alpha.3")
  {
    MixTestTexts();
    MixCaptureInProject("version: \"1.0.0-alpha.3\"", "1.0.0-alpha.3", rest);
    MixFormatsCapture(JoinLines(MixProjectOpen) + "      " + "version: \"1.0.0-alpha.3\"" + rest, "1.0.0-alpha.3");
    FormatsPrerelease();
  }

  /** A pre-release version with build metadata, whatever follows its entry. */
  lemma MixBuildInfo(rest: string)
    ensures ExtractMixVersion(JoinLines(MixProjectOpen) + "      " + "version: \"" + BuildInfo + "\"" + rest)
      == Some("v0.9.9-dev+" + "20130417140000.amd64")
  {
    var v := BuildInfo;
    MixTestTexts();
    MixCaptureInProject("version: \"" + v + "\"", v, rest);
    assert JoinLines(MixProjectOpen) + "      " + "version: \"" + v + "\"" + rest
      == JoinLines(MixProjectOpen) + "      " + ("version: \"" + v + "\"") + rest;
    MixFormatsCapture(JoinLines(MixProjectOpen) + "      " + "version: \"" + v + "\"" + rest, v);
    FormatsBuildInfo();
  }

  // ---------------------------------------------------------------------------
  // The resolver
  // ---------------------------------------------------------------------------

  /** A versioned Cargo.toml is shown. */
  lemma ResolvesCargo(read: string -> Option<string>, parseToml: Parser, parseJson: Parser, cargo: string)
    requires read("Cargo.toml") == Some(cargo) && parseToml(cargo) == Some(CargoDoc)
    ensures GetPackageVersion(read, parseToml, parseJson) == Some("v0.1.0")
  {
    CargoWithVersion(cargo, parseToml);
  }

  /** Without a Cargo.toml, a versioned package.json is shown. */
  lemma ResolvesPackageJson(read: string -> Option<string>, parseToml: Parser, parseJson: Parser, npm: string)
    requires read("Cargo.toml") == None
    requires read("package.json") == Some(npm) && parseJson(npm) == Some(NpmDoc)
    ensures GetPackageVersion(read, parseToml, parseJson) == Some("v0.1.0")
  {
    NpmWithVersion(npm, parseJson);
  }

  /**
   * A Cargo.toml without a version hides a package.json that has one: the
   * first readable manifest decides.
   */
  lemma VersionlessCargoHidesPackageJson(read: string -> Option<string>, parseToml: Parser, parseJson: Parser, cargo: string, npm: string)
    requires read("Cargo.toml") == Some(cargo) && parseToml(cargo) == Some(CargoDocWithoutVersion)
    requires read("package.json") == Some(npm) && parseJson(npm) == Some(NpmDoc)
    ensures ExtractPackageVersion(npm, parseJson) == Some("v0.1.0")
    ensures GetPackageVersion(read, parseToml, parseJson) == None
  {
    NpmWithVersion(npm, parseJson);
    CargoWithoutVersion(cargo, parseToml);
  }

  /** When only mix.exs is readable, its version is shown. */
  lemma ResolvesMixLast(read: string -> Option<string>, parseToml: Parser, parseJson: Parser)
    requires forall name :: name != "mix.exs" ==> read(name) == None
    requires read("mix.exs") == Some("  def project, do: [app: :my_app," + "version: \"3.2.1\"" + "]")
    ensures GetPackageVersion(read, parseToml, parseJson) == Some("v3.2.1")
  {
    assert read("Cargo.toml") == None && read("package.json") == None && read("pyproject.toml") == None;
    assert read("composer.json") == None && read("build.gradle") == None && read("Project.toml") == None;
    MixOneLine();
  }
}
