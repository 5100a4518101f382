# VersionChecker, modelled in Dafny

The model covers the update checker of SpongePluginVersionChecker, a Sponge server plugin library that asks
the Ore plugin repository whether a newer promoted release of a plugin exists. It has four parts:

- `Version`: the version-string constructor, `toString` and `compareTo`.
- The registry of plugins that may check (`setVersionCheckingEnabled`, `isVersionCheckingAllowed`).
- `checkPluginVersion` and `_checkPluginVersion`: authenticate, fetch the project, compare the first
  promoted version, fetch the release.
- `_checkPluginDependencies`: the diff between the new release's dependency manifest and the installed
  plugins.

Files:

- `wrappers.dfy`: `Option`.
- `versions.dfy`: the `Version` value (`-1` for an absent number, `""` for an absent stage). It holds
  Java's `Integer.compare` and `String.compareTo`, and `Compare`, which is `compareTo`. It proves that
  `Compare` is the lexicographic order on (major, minor, build, revision, stage, patch), a total order
  whose zero is equality.
- `version_parser.dfy`: the version pattern, as a match tree `Match` whose fields are the pattern's groups.
  - `Spell` is the reference reading: the text a match spells.
  - `ParseTree` is a greedy left-to-right reading of a text.
  - It is proved sound and complete against `Spell`, and the grammar is proved unambiguous.
  - `Parse` adds `Integer.parseInt`'s rejection of numbers above 2147483647.
- `version_render.dfy`: `toString` as a method appending to a buffer, its specification `Rendered`, and
  the round trip `Parse(Rendered(v)) == Some(v)`.
- `dependencies.dfy`: the diff.
  - Java's `split(",")` is modelled, including its removal of trailing empty strings.
  - The lower-bound reading of a version range.
  - The `newDeps` map and the `ignore` set built by the first loop.
  - The method `CheckDependencies`, with its three loops, proved against a reference predicate `Belongs`.
- `update_check.dfy`:
  - The Ore API is a parameter (`Server`): the reply each of the three calls would get.
  - `CheckVersion` is proved against `Performed`, which states outcome by outcome which calls are made and
    how the check ends.
  - `PerformedUnique` shows that `Performed` pins down both the calls and the outcome.
  - The class `VersionChecker` holds the registry.

Where the code and its documentation differ, the model follows the code:

- The local version is parsed before the `try` (line 228), so a plugin without a version or with an
  unparseable one makes the check throw. The outcome is `InvalidLocalVersion`, with no call made.
- A version range whose text after the bracket is only commas (`"[,"`) splits into an empty array. Indexing
  it throws `ArrayIndexOutOfBoundsException`, which the entry's `catch` of `IllegalArgumentException` does
  not handle.
  - That exception leaves the diff and is caught by the `catch` at line 262, after "Update Found" has been
    logged.
  - The model reports this as `UpdateAvailable(..., Aborted)`.
- An entry whose version does not parse puts its id into `ignore`. Another entry for the same id that does
  parse still puts it into `newDeps`, and it is then compared like any other (`IgnoredYetRequired`). So an
  ignored id is not excluded from further comparisons.
- Only three warnings exist: new, upgrade needed, and no longer required. A satisfied or ignored dependency
  produces no output. The report is a set because `newDeps` is a `HashMap`, whose key order is unspecified.
- A dependency that is installed but whose own version is missing or does not parse throws inside the
  second loop's `try`. That is caught and produces no warning (`Outdated`).

## Model

| member | source | states |
|---|---|---|
| Versions.IntCompare | src/main/java/de/dosmike/sponge/VersionChecker.java:123-128 | `Integer.compare` is -1, 0 or 1, negative exactly when the first number is smaller and zero exactly when they are equal |
| Versions.StringCompare | src/main/java/de/dosmike/sponge/VersionChecker.java:127 | `String.compareTo` of two strings one of which is a prefix of the other is the difference of their lengths |
| Versions.StringCompareIsLexLess | src/main/java/de/dosmike/sponge/VersionChecker.java:127 | `String.compareTo` is negative exactly when the first string is lexicographically before the second (a proper prefix, or a smaller character at the first difference) |
| Versions.StringCompareZero | src/main/java/de/dosmike/sponge/VersionChecker.java:127 | `String.compareTo` is zero exactly for equal strings |
| Versions.StringCompareAntisymmetric | src/main/java/de/dosmike/sponge/VersionChecker.java:127 | swapping the strings negates `String.compareTo` |
| Versions.StringCompareTransitive | src/main/java/de/dosmike/sponge/VersionChecker.java:127 | "before" for strings is transitive |
| Versions.CompareIsLexicographic | src/main/java/de/dosmike/sponge/VersionChecker.java:120-130 | `compareTo` is negative exactly when the first version precedes the second in the order major, minor, build, revision, stage, patch (as the class comment says: priority left to right, stage alphabetical) |
| Versions.Compare | src/main/java/de/dosmike/sponge/VersionChecker.java:120-130 | `compareTo` is zero exactly for equal versions; its sign is characterised by `CompareIsLexicographic` below |
| Versions.CompareAntisymmetric | src/main/java/de/dosmike/sponge/VersionChecker.java:120-130 | swapping the versions negates `compareTo` |
| Versions.CompareTransitive | src/main/java/de/dosmike/sponge/VersionChecker.java:120-130 | `compareTo` is transitive, strictly when either step is strict |
| VersionParser.ParseDotsSound | src/main/java/de/dosmike/sponge/VersionChecker.java:49 | the dotted groups read greedily are at most the allowed number of numerals, and they spell the text they consumed |
| VersionParser.ParseDotsComplete | src/main/java/de/dosmike/sponge/VersionChecker.java:49 | reading the spelling of up to three dotted numerals, followed by nothing or by a text starting with `-` or `_`, gives back those numerals and that text |
| VersionParser.ParseSuffixSound | src/main/java/de/dosmike/sponge/VersionChecker.java:49 | a suffix that is read is grammatical (`-`/`_`, letters, optional `-`/`_`, digits) and spells exactly the text |
| VersionParser.ParseSuffixComplete | src/main/java/de/dosmike/sponge/VersionChecker.java:49 | every grammatical suffix, or none, is read back from its spelling |
| VersionParser.ParseTreeSound | src/main/java/de/dosmike/sponge/VersionChecker.java:49-53 | a text that is accepted is spelled by a grammatical match of the pattern (the full-string `matches`) |
| VersionParser.ParseTreeComplete | src/main/java/de/dosmike/sponge/VersionChecker.java:49-53 | every grammatical match is read back from its spelling, so every text the pattern matches is accepted |
| VersionParser.MatchUnique | src/main/java/de/dosmike/sponge/VersionChecker.java:49 | the pattern is unambiguous: two grammatical matches with the same spelling are equal, so the groups are determined by the text |
| VersionParser.Parse | src/main/java/de/dosmike/sponge/VersionChecker.java:50-68 | a parsed version is well formed: every number is at most 2147483647, each optional number is -1 (unset) or not negative, a build is only set with a minor and a revision only with a build, and the stage is letters |
| VersionParser.ParseIsPattern | src/main/java/de/dosmike/sponge/VersionChecker.java:50-68 | the constructor yields `v` exactly when some grammatical match spells the text, its numbers fit an `int`, and its groups (absent ones as -1 and "") are `v` |
| VersionParser.ParseRejectsNonMatching | src/main/java/de/dosmike/sponge/VersionChecker.java:51-53 | a text the pattern does not match is rejected (`IllegalArgumentException`) |
| VersionRender.NumberText | src/main/java/de/dosmike/sponge/VersionChecker.java:101 | appending an `int` writes a numeral whose value is that number |
| VersionRender.NumberTextCanonical | src/main/java/de/dosmike/sponge/VersionChecker.java:101-110 | the numeral appended is the canonical decimal: `0` for zero, and no leading zero otherwise |
| VersionRender.Rendered | src/main/java/de/dosmike/sponge/VersionChecker.java:99-113 | the text `toString` produces; its meaning is stated by `RenderRoundTrip` (it parses back to the version), `RenderDash` and `RenderExamples` |
| VersionRender.ToString | src/main/java/de/dosmike/sponge/VersionChecker.java:98-113 | the buffer built is `Rendered(v)`, and for a well-formed version the constructor parses it back to `v` |
| VersionRender.RenderRoundTrip | src/main/java/de/dosmike/sponge/VersionChecker.java:95-113 | `new Version(v.toString())` equals `v` for every well-formed version |
| VersionRender.RenderNormalises | src/main/java/de/dosmike/sponge/VersionChecker.java:50-113 | parsing, rendering and parsing again gives the first parse (so `toString` is a normal form for parsed versions) |
| VersionRender.RenderDash | src/main/java/de/dosmike/sponge/VersionChecker.java:107-111 | the rendered text contains `-` exactly when the version has a stage or a patch |
| VersionRender.RenderExamples | src/main/java/de/dosmike/sponge/VersionChecker.java:95-97 | the documented examples: major 1, minor 2, stage Release gives `1.2-Release`; major 1, revision 5 gives `1.0.0.5` |
| Dependencies.DropTrailingEmpty | src/main/java/de/dosmike/sponge/VersionChecker.java:280 | removing the trailing empty strings, as `split` does, keeps a prefix of the pieces |
| Dependencies.SplitOnComma | src/main/java/de/dosmike/sponge/VersionChecker.java:280 | no element of `split(",")` contains a comma |
| Dependencies.SplitOnCommaSpec | src/main/java/de/dosmike/sponge/VersionChecker.java:280 | `split(",")` gives no element exactly for a non-empty text of commas only, and otherwise its first element is the text before the first comma |
| Dependencies.RequirementOf | src/main/java/de/dosmike/sponge/VersionChecker.java:279-288 | what one entry's version text amounts to (a version, unparseable, or out of bounds); characterised by `RequirementOfSpec` below |
| Dependencies.RequirementOfSpec | src/main/java/de/dosmike/sponge/VersionChecker.java:279-288 | an entry's text is out of bounds exactly when it is a range whose rest is commas only; otherwise a range is read from its lower bound and any other text whole |
| Dependencies.RangeLowerBound | src/main/java/de/dosmike/sponge/VersionChecker.java:279-281 | `[1.0,2.0)` requires version 1.0 |
| Dependencies.RangeWithoutLowerBound | src/main/java/de/dosmike/sponge/VersionChecker.java:279-287 | `(,2.0]` has an empty lower bound, which does not parse, so the entry is ignored |
| Dependencies.RangeOfCommas | src/main/java/de/dosmike/sponge/VersionChecker.java:280-281 | `[,` splits into nothing, so indexing its first bound is out of bounds |
| Dependencies.ReadRequirement | src/main/java/de/dosmike/sponge/VersionChecker.java:278-288 | the body of the first loop reads the entry's text as `RequirementOf` says |
| Dependencies.AbortsIff | src/main/java/de/dosmike/sponge/VersionChecker.java:273-290 | the first loop throws exactly when some entry's range splits into nothing |
| Dependencies.RequirementsDomain | src/main/java/de/dosmike/sponge/VersionChecker.java:273-290 | `newDeps` has an id exactly when some entry for it parsed |
| Dependencies.RequirementsLastWins | src/main/java/de/dosmike/sponge/VersionChecker.java:289 | `newDeps` maps an id to the version of its last entry that parsed (`put` overwrites) |
| Dependencies.IgnoredIff | src/main/java/de/dosmike/sponge/VersionChecker.java:285-287 | `ignore` holds an id exactly when some entry for it did not parse |
| Dependencies.Unmentioned | src/main/java/de/dosmike/sponge/VersionChecker.java:273-290 | when the loop finishes, an id is in neither `newDeps` nor `ignore` exactly when no entry names it |
| Dependencies.CheckDependencies | src/main/java/de/dosmike/sponge/VersionChecker.java:270-314 | the diff aborts exactly when the first loop throws; otherwise it reports exactly the warnings `Belongs` defines: required and not installed is new, required and installed with a parseable lower version needs an upgrade, declared but neither required nor ignored is stale |
| Dependencies.IsOutdated | src/main/java/de/dosmike/sponge/VersionChecker.java:296-300 | an installed dependency needs an upgrade exactly when its own version text is present, parses, and is below the required version (a missing or unparseable one is caught and skipped) |
| Dependencies.ReportExclusive | src/main/java/de/dosmike/sponge/VersionChecker.java:291-313 | a dependency reported new is not also reported for an upgrade, and one reported new or for an upgrade is not reported stale |
| Dependencies.IgnoredYetRequired | src/main/java/de/dosmike/sponge/VersionChecker.java:285-289 | an id whose first entry does not parse and whose second does is both in `ignore` and in `newDeps` |
| Dependencies.UpgradeAndStaleScenario | src/main/java/de/dosmike/sponge/VersionChecker.java:291-313 | manifest `a 2.0`, with `a 1.0` installed and `a`, `b` declared, reports exactly: `a` needs 2.0, `b` is no longer required |
| UpdateCheck.CheckVersion | src/main/java/de/dosmike/sponge/VersionChecker.java:227-268 | the calls made are a prefix of authenticate, project, release, and the outcome is the one `Performed` defines: an unparseable local version escapes before any call; a failed authentication or project call, a missing session, no promoted version or an unparseable remote version stops with `Failed`; a remote version that is not newer is `UpToDate`; a newer one is announced and its release fetched: a failed release call ends in `ReleaseUnreachable` with the announced version, otherwise the outcome carries the version, the release description and the dependency diff |
| UpdateCheck.PerformedUnique | src/main/java/de/dosmike/sponge/VersionChecker.java:227-268 | two checks against the same replies make the same calls and end the same way |
| UpdateCheck.VersionChecker.constructor | src/main/java/de/dosmike/sponge/VersionChecker.java:133 | no plugin is allowed to check at first |
| UpdateCheck.VersionChecker.IsVersionCheckingAllowed | src/main/java/de/dosmike/sponge/VersionChecker.java:143-145 | whether the plugin may check: membership in the registry, which `SetVersionCheckingEnabled` states how it changes |
| UpdateCheck.VersionChecker.SetVersionCheckingEnabled | src/main/java/de/dosmike/sponge/VersionChecker.java:138-141 | afterwards the plugin is allowed exactly when `enabled` is true, and every other plugin keeps its setting |
| UpdateCheck.VersionChecker.CheckPluginVersion | src/main/java/de/dosmike/sponge/VersionChecker.java:182-190 | a plugin that is not allowed makes no call; an allowed one runs the check as `Performed` defines |

## Left out

- The HTTPS connection, its headers (including the User-Agent built from `versionCheckerVersion`), the status
  check and the JSON parsing are not modelled. Each call's reply is a parameter that is either a body or
  `Unavailable`, which covers a status other than 200, a connection failure and a malformed body alike.
- JSON members of the wrong type (`getAsString` on a non-string, a dependency that is not an object) are not
  modelled: a manifest entry is a pair of strings.
- Logging is not modelled: the messages, the `VerboseVersionChecker` property, the split of the description
  into lines and the rendering of the versions in the messages. The outcome and the diff carry what the
  messages report: the announced version, the description, the three kinds of dependency warning, and
  the failure that the `catch` reports.
- `conformAuto` and `checkVersion` are not modelled: reading or creating the HOCON configuration, looking up the
  plugin container, and scheduling the check as an asynchronous `Task`. The result of the configuration is what
  `SetVersionCheckingEnabled` receives.
- The plugin manager is a parameter: a map from installed plugin id to its version text.
- `hashCode` and the getters of `Version` are not modelled: the Dafny datatype has its fields and equality.
- Concurrency is not modelled: the static registry is a field of one `VersionChecker` object.
- VersionRender.ToString: the `.0` placeholders written for a missing minor or build use `> 0`, as the code
  does. No version read by the constructor has a missing minor before a present build, so the round trip is
  stated for well-formed versions only.
