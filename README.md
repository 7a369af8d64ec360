# Package version resolver

A Dafny model of the package-version lookup behind starship's `package`
prompt segment (`src/modules/package.rs`). Given a project directory, the
resolver reads the first manifest that can be read, in a fixed order
(a file that exists but cannot be read is passed over like a missing one):

1. Cargo.toml
2. package.json
3. pyproject.toml
4. composer.json
5. build.gradle
6. Project.toml
7. mix.exs

It pulls the version out of that manifest by the manifest's own rule and
formats it for display as `v<version>`. The first readable manifest decides.
If it has no usable version, the segment shows nothing, even when a later
manifest has a version.

Each manifest has its own rule:

- Cargo.toml: the string at `package.version`.
- pyproject.toml: the string at `tool.poetry.version`.
- Project.toml: the top-level string `version`.
- composer.json: the string `version`, unless it is the text `null`.
- package.json: the same as composer.json, and in addition no version at all
  when `private` is the boolean `true`.
- build.gradle: the first line that reads exactly `version '<v>'` or
  `version "<v>"`.
- mix.exs: the first `version: "<v>"` anywhere in the file.

`format_version` deletes every double quote and trims Unicode whitespace. It
then puts a `v` in front unless the result already starts with one.

Layout:

- `options.dfy` (module `Options`): an `Option` type with failure
  propagation. It plays the part of Rust's `?`.
- `strings.dfy` (module `Str`): Rust's `char::is_whitespace`,
  `str::replace('"', "")` and `trim`. Each is specified by what it removes
  and what it keeps. Trimming is written as two index scans, one from each
  end.
- `tree.dfy` (module `Tree`): a parsed TOML or JSON document and the
  `get`, `as_str` and `as_bool` accessors.
- `patterns.dfy`:
  - module `Patterns` holds the two regular expressions as declarative match
    predicates. Each comes with a scanner proved to return exactly the
    leftmost match.
  - module `PatternFacts` holds lemmas for reasoning about the scanners on
    concrete texts: skipping lines that cannot match, and a match at the
    start.
- `package.dfy` (module `Package`): `format_version`, the seven extractors
  and the resolver. The resolver is also given as a walk over the manifest
  table, and properties of the lookup order are proved from that walk.
- `package_cases.dfy` (module `PackageCases`): the source's unit tests,
  restated as lemmas, and a few end-to-end resolver cases.

The code is pure expression code (`?` chains, one `if`/`else if` chain, and
regex captures), so the model is made of functions and lemmas. It has no
classes or loops.

## Model

| member | source | states |
|---|---|---|
| Str.RemoveQuotes | src/modules/package.rs:126 | The result holds no `"`; text without `"` comes back unchanged |
| Str.RemoveQuotesMultiset | src/modules/package.rs:126 | Deleting quotes keeps every other character with its multiplicity and removes all `"` |
| Str.RemoveQuotesAppend | src/modules/package.rs:126 | Quote deletion distributes over concatenation, so the order of the kept characters is preserved |
| Str.RemoveQuotesKeepsOnlyInputChars | src/modules/package.rs:126 | Every character of the result is a non-quote character of the input |
| Str.SkipForward | src/modules/package.rs:126 | The scan from the front stops at the first non-whitespace character, and everything it passes over is whitespace |
| Str.SkipBackward | src/modules/package.rs:126 | The scan from the back stops just after the last non-whitespace character, and everything it passes over is whitespace |
| Str.Trim | src/modules/package.rs:126 | The result is a slice of the input with only whitespace around it, and it has no outer whitespace |
| Str.TrimKeepsOnlyInputChars | src/modules/package.rs:126 | Every character of a trimmed string occurs in the input |
| Str.TrimPadded | src/modules/package.rs:126 | Trimming whitespace around a trimmed text gives back exactly that text |
| Patterns.Find | src/modules/package.rs:71 | The index of the first character from a stop set at or after a position (the end of a `[^…]+` run), and nothing in between is a stop character |
| Patterns.GradleMatchUnique | src/modules/package.rs:71 | At one position the Gradle pattern captures at most one version: the negated class cannot cross the closing quote |
| Patterns.GradleMatchAtSound | src/modules/package.rs:71 | What the anchored scan returns is a match of the Gradle pattern at that position |
| Patterns.GradleMatchAtComplete | src/modules/package.rs:71 | Every match of the Gradle pattern at a position is what the anchored scan returns |
| Patterns.GradleMatchAtCorrect | src/modules/package.rs:71 | The anchored scan returns a capture exactly when the Gradle pattern matches at that position |
| Patterns.GradleSearchCorrect | src/modules/package.rs:71-72 | The search returns a match at or after a position, and no match starts between that position and it; None means no match at all from there |
| Patterns.GradleCaptureCorrect | src/modules/package.rs:71-72 | `captures` for `(?m)^version ['"]([^'"]+)['"]$`: the capture of a leftmost match, and None exactly when the text has no match |
| Patterns.LeftmostGradleMatchUnique | src/modules/package.rs:71-72 | The leftmost Gradle match, and so the capture, is unique |
| Patterns.MixMatchUnique | src/modules/package.rs:98 | At one position the Mix pattern captures at most one version |
| Patterns.MixMatchAtSound | src/modules/package.rs:98 | What the anchored scan returns is a match of the Mix pattern at that position |
| Patterns.MixMatchAtComplete | src/modules/package.rs:98 | Every match of the Mix pattern at a position is what the anchored scan returns |
| Patterns.MixMatchAtCorrect | src/modules/package.rs:98 | The anchored scan returns a capture exactly when the Mix pattern matches at that position |
| Patterns.MixSearchCorrect | src/modules/package.rs:98-99 | The search returns a Mix match at or after a position, and no match starts between that position and it; None means no match at all from there |
| Patterns.MixCaptureCorrect | src/modules/package.rs:98-99 | `captures` for `version: "([^"]+)"`: the capture of a leftmost match, and None exactly when the text has no match |
| Patterns.LeftmostMixMatchUnique | src/modules/package.rs:98-99 | The leftmost Mix match is unique |
| PatternFacts.GradleCaptureOfLeftmost | src/modules/package.rs:71-72 | Any leftmost Gradle match is what the capture returns |
| PatternFacts.GradleShift | src/modules/package.rs:71 | Behind a prefix that ends a line, the Gradle pattern matches exactly where it matches in the remaining text |
| PatternFacts.GradleNoMatchBefore | src/modules/package.rs:71 | No match in a prefix ending a line and none early in the rest means none early in the whole text |
| PatternFacts.GradleSkipsPrefix | src/modules/package.rs:71-72 | Lines before the first match do not change the capture |
| PatternFacts.GradleSkipsLine | src/modules/package.rs:71-72 | A line that does not begin with `version ` never affects the capture |
| PatternFacts.GradleSkipsLines | src/modules/package.rs:71-72 | Any number of such lines do not affect the capture |
| PatternFacts.GradleVersionLine | src/modules/package.rs:71-72 | A first line `version '<v>'` or `version "<v>"` (either quote at either end) followed by a line end or the end of the text yields `<v>` |
| PatternFacts.GradleNoVersionInLine | src/modules/package.rs:71-72 | A single line that does not begin with `version ` has no capture |
| PatternFacts.MixCaptureOfLeftmost | src/modules/package.rs:98-99 | Any leftmost Mix match is what the capture returns |
| PatternFacts.MixShift | src/modules/package.rs:98 | Behind any prefix, the Mix pattern matches exactly where it matches in the remaining text |
| PatternFacts.MixNoMatchBefore | src/modules/package.rs:98 | No match in a prefix and none early in the rest means none early in the whole text |
| PatternFacts.MixSkipsUnmatched | src/modules/package.rs:98-99 | A prefix in which no match starts does not change the capture |
| PatternFacts.MixSkipsPrefix | src/modules/package.rs:98-99 | Text without a `v` before the entry does not change the capture |
| PatternFacts.MixSkipsLines | src/modules/package.rs:98-99 | Lines without a `v` do not change the capture |
| PatternFacts.MixVersionFirst | src/modules/package.rs:98-99 | A text that starts with `version: "<v>"` yields `<v>`, whatever follows |
| Package.FormatVersion | src/modules/package.rs:125-132 | The display version starts with `v`, holds no `"`, and has no outer whitespace |
| Package.FormatVersionFixedPoints | src/modules/package.rs:125-132 | `format_version` leaves a string unchanged exactly when it is already a display version (both directions) |
| Package.FormatVersionIdempotent | src/modules/package.rs:125-132 | Formatting twice is formatting once |
| Package.RemoveQuotesOfPadding | src/modules/package.rs:126 | Deleting quotes from a run of quotes and whitespace leaves only whitespace |
| Package.FormatVersionStripsPadding | src/modules/package.rs:125-132 | Quotes and whitespace around a quote-free trimmed version are dropped; the version is kept verbatim and gains a `v` unless it starts with one |
| Package.FormatVersionOfBlank | src/modules/package.rs:125-132 | Empty, blank or quotes-only input formats to `v` |
| Package.FormatVersionExamples | src/modules/package.rs:139-150 | `0.1.0` and `v0.1.0`, with any padding of spaces and quotes, format to `v0.1.0` |
| Package.ExtractCargoVersion | src/modules/package.rs:34-40 | A version exactly when the text parses and `package.version` is a string, and then it is that string formatted |
| Package.ExtractPackageVersion | src/modules/package.rs:42-56 | None for a private package; a version exactly when the text parses, the package is not private, and `version` is a string other than `null`; then it is that string formatted |
| Package.ExtractPoetryVersion | src/modules/package.rs:58-68 | A version exactly when the text parses and `tool.poetry.version` is a string, and then it is that string formatted |
| Package.ExtractGradleVersion | src/modules/package.rs:70-76 | A version found in build.gradle is a display version |
| Package.ExtractGradleVersionCorrect | src/modules/package.rs:70-76 | None exactly when no line matches the Gradle pattern; otherwise the formatted capture of the leftmost match |
| Package.ExtractComposerVersion | src/modules/package.rs:78-87 | A version exactly when the text parses and `version` is a string other than `null`, and then it is that string formatted |
| Package.ExtractProjectVersion | src/modules/package.rs:89-95 | A version exactly when the text parses and the top-level `version` is a string, and then it is that string formatted |
| Package.ExtractMixVersion | src/modules/package.rs:97-103 | A version found in mix.exs is a display version |
| Package.ExtractMixVersionCorrect | src/modules/package.rs:97-103 | None exactly when the text has no Mix match; otherwise the formatted capture of the leftmost match |
| Package.GetPackageVersion | src/modules/package.rs:105-123 | Whatever it returns is a display version |
| Package.ProbeUnrolled | src/modules/package.rs:105-123 | The walk over the seven-entry manifest table tries the files in the source's order and stops at the first readable one |
| Package.GetPackageVersionIsProbe | src/modules/package.rs:105-123 | The `if`/`else if` chain equals a walk over the manifest table in its fixed order, with each format's extractor |
| Package.ProbeSkipsUnreadable | src/modules/package.rs:105-123 | Unreadable manifests are passed over without effect on the result |
| Package.ProbeReachesFirstReadable | src/modules/package.rs:105-123 | The walk passes over unreadable manifests to the first readable one |
| Package.FirstReadableManifestDecides | src/modules/package.rs:105-123 | The result is the extractor of the first readable manifest applied to its text |
| Package.NoFallbackToLaterManifests | src/modules/package.rs:105-123 | Manifests after the first readable one never affect the result, even when that one yields no version |
| Package.ProbeWithoutReadable | src/modules/package.rs:105-123 | The walk yields None when no remaining manifest is readable |
| Package.NoManifestNoVersion | src/modules/package.rs:105-123 | Without a readable manifest there is no version |
| PackageCases.FormatsBareRelease | src/modules/package.rs:140 | `0.1.0` formats to `v0.1.0` |
| PackageCases.FormatsPaddedVersion | src/modules/package.rs:125-132 | A clean version without a leading `v`, behind any run of quotes and whitespace, formats to `v` plus that version |
| PackageCases.TomlDocLookups | src/modules/package.rs:154-176 | The TOML test documents hold, or lack, the looked-up version strings |
| PackageCases.JsonDocLookups | src/modules/package.rs:178-248 | The JSON test documents hold, or lack, the looked-up version strings and the `private` flag |
| PackageCases.CargoWithVersion | src/modules/package.rs:154-163 | A Cargo document with `package.version = "0.1.0"` gives `v0.1.0` |
| PackageCases.CargoWithoutVersion | src/modules/package.rs:165-176 | A Cargo document without a version gives None |
| PackageCases.NpmWithVersion | src/modules/package.rs:178-191 | A package.json with version `0.1.0` gives `v0.1.0` |
| PackageCases.NpmWithoutVersion | src/modules/package.rs:193-205 | A package.json without a version gives None |
| PackageCases.NpmWithNullVersion | src/modules/package.rs:207-220 | A JSON `null` version gives None |
| PackageCases.NpmWithNullStringVersion | src/modules/package.rs:222-235 | The version string `null` gives None |
| PackageCases.NpmPrivatePackage | src/modules/package.rs:237-248 | A private package gives None despite a valid version |
| PackageCases.PoetryWithVersion | src/modules/package.rs:251-263 | A pyproject with `tool.poetry.version = "0.1.0"` gives `v0.1.0` |
| PackageCases.PoetryWithoutVersion | src/modules/package.rs:265-276 | A pyproject without a version gives None |
| PackageCases.ComposerWithVersion | src/modules/package.rs:406-417 | A composer.json with version `0.1.0` gives `v0.1.0` |
| PackageCases.ComposerWithoutVersion | src/modules/package.rs:419-428 | A composer.json without a version gives None |
| PackageCases.ProjectWithVersion | src/modules/package.rs:432-443 | A Project.toml with top-level `version = "0.1.0"` gives `v0.1.0` |
| PackageCases.ProjectWithoutVersion | src/modules/package.rs:445-455 | A `version` only inside a table is not found, so the result is None |
| PackageCases.GradlePluginsLines | src/modules/package.rs:280-283 | No line of the plugins block begins with `version `, though one contains ` version ` |
| PackageCases.GradlePluginsSkipped | src/modules/package.rs:280-283 | The plugins block, whose indented dependency line has a `version`, does not affect the capture |
| PackageCases.GradleCaptureAfterPlugins | src/modules/package.rs:280-284 | A `version` line after the plugins block is captured |
| PackageCases.GradleSingleQuotes | src/modules/package.rs:280-294 | `version '0.1.0'` after the plugins block gives `v0.1.0`, whatever lines follow |
| PackageCases.GradleDoubleQuotes | src/modules/package.rs:296-310 | `version "0.1.0"` after the plugins block gives `v0.1.0`, whatever lines follow |
| PackageCases.GradleReleaseCandidate | src/modules/package.rs:312-326 | `version '0.1.0-rc1'` gives `v0.1.0-rc1`, whatever lines follow |
| PackageCases.FormatsReleaseCandidate | src/modules/package.rs:322 | `0.1.0-rc1` formats to `v0.1.0-rc1` |
| PackageCases.NotAVersionLine | src/modules/package.rs:71 | A line that does not start with `v` is no `version` line |
| PackageCases.GradleJavaLines | src/modules/package.rs:333-336 | No line of the `java` block begins with `version ` |
| PackageCases.GradleJavaSkipped | src/modules/package.rs:333-336 | The `java` block does not affect the capture |
| PackageCases.GradleWithoutVersion | src/modules/package.rs:328-341 | Without a top-level `version` line the result is None, despite the plugin's version |
| PackageCases.MixModuleOpenSkipped | src/modules/package.rs:346-348 | The module header does not affect the capture |
| PackageCases.MixProjectOpenSkipped | src/modules/package.rs:349-351 | The opening of `def project` does not affect the capture |
| PackageCases.MixCaptureAfter | src/modules/package.rs:98-99 | A `version:` entry after text without a `v` is captured |
| PackageCases.MixProjectThenUnmatched | src/modules/package.rs:349-351 | The opening of `def project` and following text without a `v` do not affect the capture |
| PackageCases.MixCaptureInProject | src/modules/package.rs:378-383 | An indented entry inside `def project` is captured |
| PackageCases.MixCaptureInModule | src/modules/package.rs:346-352 | The same entry in the complete project file is captured |
| PackageCases.MixComplete | src/modules/package.rs:346-371 | The complete project file gives `v1.2.3`, whatever follows the entry |
| PackageCases.FormatsMixVersions | src/modules/package.rs:370-375 | `1.2.3` and `3.2.1` format to `v1.2.3` and `v3.2.1` |
| PackageCases.MixOneLine | src/modules/package.rs:373-376 | The one-line project gives `v3.2.1` |
| PackageCases.FormatsPrerelease | src/modules/package.rs:385 | `1.0.0-alpha.3` formats to `v1.0.0-alpha.3` |
| PackageCases.MixPrerelease | src/modules/package.rs:378-389 | A pre-release entry gives `v1.0.0-alpha.3`, whatever follows |
| PackageCases.FormatsBuildInfo | src/modules/package.rs:398 | A version with build metadata only gains the `v` |
| PackageCases.MixBuildInfo | src/modules/package.rs:391-402 | A version with build metadata is kept verbatim behind the `v`, whatever follows |
| PackageCases.ResolvesCargo | src/modules/package.rs:106-107 | A versioned Cargo.toml is shown |
| PackageCases.ResolvesPackageJson | src/modules/package.rs:106-109 | Without a Cargo.toml, a versioned package.json is shown |
| PackageCases.VersionlessCargoHidesPackageJson | src/modules/package.rs:105-109 | A Cargo.toml without a version hides a package.json that has one |
| PackageCases.ResolvesMixLast | src/modules/package.rs:105-123 | When only mix.exs is readable, its version is shown |

## Left out

- `module` (src/modules/package.rs:16-32) is left out. It builds the prompt segment from the configuration and the module context. It does no version logic beyond calling the resolver and styling the result.
- File I/O: each `utils::read_file(base_dir.join(name))` is a function from the file name to the file's text, or None when the file cannot be read. The base directory and `PathBuf` joining are left out, because every lookup uses the same directory.
- TOML and JSON parsing: `toml::from_str` and `serde_json::from_str` are parameters from text to a parsed document, or None when the text does not parse. The tests are stated for any parser that turns the test's text into the test's document.
- Parsed documents keep only what the lookups distinguish: strings, booleans, tables, JSON `null`, and every other value (numbers, arrays, dates) as one case.
- The general regex engine is left out. Each of the two patterns is modelled by its own match predicate, with the leftmost-first semantics of `captures`.
- The test texts for build.gradle and mix.exs are written line by line, and the text after the version entry is a parameter. For mix.exs it is arbitrary. For build.gradle it must be empty or begin with a line break, since the Gradle pattern needs the version line to end there. Each lemma thus covers the test's remaining lines and any others of that shape.
- Package.ExtractGradleVersion: its own contract only says the result is a display version. What it captures is stated by Package.ExtractGradleVersionCorrect.
- Package.ExtractMixVersion: its own contract only says the result is a display version. What it captures is stated by Package.ExtractMixVersionCorrect.
- Package.GetPackageVersion: its own contract only says the result is a display version. The lookup order and the missing fallback are stated by Package.FirstReadableManifestDecides, Package.NoFallbackToLaterManifests and Package.NoManifestNoVersion.

## Notes on the patterns

- The Gradle version class `[^'"]` also matches line breaks. A version can therefore run across lines when a later line closes it with a quote at its end. The model keeps this.
- In multi-line mode `$` matches only before `\n` or at the end of the text. A `version '…'` line that ends in `\r\n` therefore never matches. The model keeps this too.
- Opening and closing quotes need not agree (`version '1.0"` matches), as in the source.
