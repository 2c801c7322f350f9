# TypeScript boilerplate helper scripts, modelled in Dafny

This project models the decision logic of the small scripts that ship with a
TypeScript project template, and proves properties of that model. It covers:

- **The release-notes extractor** (`scripts/extract-latest-release.js`). It cuts
  the newest version section out of `CHANGELOG.md` with one regular expression and
  trims it. It writes a two-line fallback note naming the package version when the
  expression finds nothing. When the changelog cannot be read, it writes the same
  fallback and exits with status 1. Module `ExtractLatestRelease`.
- **The interactive release prompt** (`scripts/release.js`). It maps one typed
  answer to `patch`, `minor` or `major` through a fixed table, defaulting to patch,
  and builds the `standard-version` command. Module `Release`.
- **The one-time automation installer** (`scripts/setup-automation.js`). It decides
  which features are enabled from four yes/no answers. It plans which template
  files are copied where, and which directories are ensured before each copy. It
  adds each enabled feature's npm scripts to the manifest's `scripts` object
  without overwriting scripts that are already set. Module `SetupAutomation`.
- **The library's `greet` function** (`src/index.ts`). Module `Greeting`.

Two helper modules are shared by the others:

- `JsStrings` holds the JavaScript string built-ins the scripts rely on. These are
  the ECMAScript whitespace set, which is used both by the regular-expression class
  `\s` and by `String.prototype.trim`; `trim` itself; and lower-casing.
- `Optional` holds an option type.

Four operations are each paired with an independent reference and proved equal
to it:

- The regular expression is modelled twice. One version is a scanner that tries
  each start position in turn. The other is a declarative description of the text
  each part of the pattern matches: `HeadingToken`, `NextToken` and `IsRegexMatch`.
  Lemmas prove the two agree in both directions.
- `trim` is characterised by `TrimUnique`: any split of a text into whitespace, a
  text with non-whitespace ends, and whitespace determines what `trim` returns.
- The installer's sequence of add-if-missing checks is proved equal to one map
  operation, `FillUnset`. That operation fills every unset key from the enabled
  features' defaults.
- The copy loop is proved equal to copying the concatenated file lists of the
  enabled features.

The comment above the pattern (scripts/extract-latest-release.js:14-16) says the
section runs "until the next version heading". The model follows the pattern
instead: the look-ahead needs only `#+\s\[` and one digit, not a complete version
heading. Two more facts about the pattern:

- The section body is matched lazily (`.*?`), so it stops at the first look-ahead.
- The character after the `#`s may be any whitespace, including a newline.

## Model

| member | source | states |
|---|---|---|
| `JsStrings.IsSpace` | scripts/extract-latest-release.js:17-21 | The ECMAScript WhiteSpace and LineTerminator set that both `\s` and `trim` use. Characterised through `Trim`, `TrimUnique` and the scanner lemmas `OpenEndIff` and `NextAtIff`. |
| `JsStrings.LeadingSpace` | scripts/extract-latest-release.js:21 | The whitespace prefix of a text. Every character before it is ECMAScript whitespace, and the character at it, if any, is not. |
| `JsStrings.TrailingSpace` | scripts/extract-latest-release.js:21 | The whitespace suffix of a text. Every character in it is whitespace, and the character just before it, if any, is not. |
| `JsStrings.Trim` | scripts/extract-latest-release.js:21 | The result of `trim` has no whitespace at either end. It occurs in the input right after the leading whitespace, and only whitespace follows it. |
| `JsStrings.TrimUnique` | scripts/extract-latest-release.js:21 | Reference for `trim`. When a text is whitespace, then a text with non-whitespace ends, then whitespace, trimming returns exactly the middle text. |
| `JsStrings.TrimDecomposes` | scripts/extract-latest-release.js:21 | Every text is its leading whitespace, followed by its trimmed form, followed by its trailing whitespace. |
| `JsStrings.TrimOfTrimmed` | scripts/release.js:30 | Trimming a text whose ends are not whitespace returns it unchanged. |
| `JsStrings.TrimIgnoresPadding` | scripts/release.js:30 | Adding whitespace around a text does not change what `trim` returns. |
| `JsStrings.ToLowerAscii` | scripts/release.js:30 | `toLowerCase` keeps the length and lower-cases every character in place. |
| `JsStrings.ToLowerAsciiIs` | scripts/setup-automation.js:71-74 | A lower-cased text equals a word exactly when the lengths agree and each character lower-cases to the word's character at the same position. |
| `ExtractLatestRelease.HashRunEnd` | scripts/extract-latest-release.js:17 | The greedy `#+` run starting at a position: all `#` up to its end, and no `#` at its end. |
| `ExtractLatestRelease.DigitRunEnd` | scripts/extract-latest-release.js:17 | The greedy `[0-9]+` run starting at a position: all digits up to its end, and no digit at its end. |
| `ExtractLatestRelease.OpenEnd` | scripts/extract-latest-release.js:17 | The scanner for `#+\s\[`. A match ends at least three characters on and within the input. `OpenEndIff` characterises it exactly. |
| `ExtractLatestRelease.DigitsThen` | scripts/extract-latest-release.js:17 | The scanner for `[0-9]+` followed by `.` or `]`. A match ends at least two characters on and within the input. `DigitsThenIff` characterises it exactly. |
| `ExtractLatestRelease.OpenEndIff` | scripts/extract-latest-release.js:17 | The scanner for `#+\s\[` at position i ends at a exactly when `s[i..a]` is such a token. |
| `ExtractLatestRelease.DigitsThenIff` | scripts/extract-latest-release.js:17 | The scanner for `[0-9]+` followed by `.` or `]` ends at b exactly when `s[i..b]` is such a token. |
| `ExtractLatestRelease.HeadingEnd` | scripts/extract-latest-release.js:17 | The scanner for the version heading. A heading it finds ends after its start and within the input. `HeadingEndIff` characterises it exactly. |
| `ExtractLatestRelease.HeadingAt` | scripts/extract-latest-release.js:17 | A heading can start only at a `#`. `HeadingAtIff` characterises it exactly. |
| `ExtractLatestRelease.NextAt` | scripts/extract-latest-release.js:17 | The look-ahead can succeed only at a `#`. `NextAtIff` characterises it exactly. |
| `ExtractLatestRelease.HeadingEndIff` | scripts/extract-latest-release.js:17 | The scanner for the heading `#+\s\[[0-9]+\.[0-9]+\.[0-9]+\]` ends at h exactly when a heading token spans `s[i..h]`. |
| `ExtractLatestRelease.HeadingAtIff` | scripts/extract-latest-release.js:17 | The scanner finds a heading at i exactly when some heading token starts there. |
| `ExtractLatestRelease.NextAtIff` | scripts/extract-latest-release.js:17 | The scanner's look-ahead `#+\s\[[0-9]+` succeeds at j exactly when the reference look-ahead does. |
| `ExtractLatestRelease.FirstHeading` | scripts/extract-latest-release.js:17 | The leftmost start at or after `from` where the heading matches. No heading starts before it, and none starts anywhere when it finds nothing. |
| `ExtractLatestRelease.SectionEnd` | scripts/extract-latest-release.js:17 | End of the lazy body: the first position where the look-ahead succeeds, or the end of input. The look-ahead fails everywhere before it. |
| `ExtractLatestRelease.SectionEndIs` | scripts/extract-latest-release.js:17 | The body's end is determined by those facts. |
| `ExtractLatestRelease.LatestSection` | scripts/extract-latest-release.js:17 | `match` finds nothing exactly when no heading occurs anywhere. A match it finds begins with a heading ending at its recorded heading end. |
| `ExtractLatestRelease.NoHeadingTokenPastEnd` | scripts/extract-latest-release.js:17 | No heading token starts outside the input. |
| `ExtractLatestRelease.LatestSectionNoneIff` | scripts/extract-latest-release.js:17-19 | There is no match exactly when no heading token occurs in the changelog. |
| `ExtractLatestRelease.LatestSectionMatches` | scripts/extract-latest-release.js:17 | A match the scanner returns satisfies the reference description of the regular-expression match. |
| `ExtractLatestRelease.LatestSectionIsRegexMatch` | scripts/extract-latest-release.js:17 | The scanner returns section (i, h, j) exactly when `s[i..j]` is the regular-expression match, with its heading ending at h. |
| `ExtractLatestRelease.RegexMatchUnique` | scripts/extract-latest-release.js:17 | Any two matches the reference describes coincide: leftmost start, then the shortest body. |
| `ExtractLatestRelease.FallbackNotes` | scripts/extract-latest-release.js:27 | The fallback note begins with `# v` and the version, ends with the version, and is 21 characters longer than two copies of the version. |
| `ExtractLatestRelease.ExtractNotes` | scripts/extract-latest-release.js:17-28 | The fallback is written exactly when no heading occurs, and it is the fallback note. Otherwise the text is a non-empty, trimmed prefix of the match that starts with `#`, so the truthiness test on line 19 always passes. Only whitespace follows it in the match. |
| `ExtractLatestRelease.HeadingStartsWithHash` | scripts/extract-latest-release.js:19 | A heading match starts with `#`, so a matched section is never empty. |
| `ExtractLatestRelease.TrimKeepsHeading` | scripts/extract-latest-release.js:21 | Trimming a section that starts with `#` removes only whitespace at its end. |
| `ExtractLatestRelease.ExtractNotesIsTrimmedMatch` | scripts/extract-latest-release.js:17-28 | Reference statement of the extractor. The notes are t exactly when t is the trimmed regular-expression match. The fallback is used exactly when no heading token exists. |
| `ExtractLatestRelease.ExtractIgnoresVersion` | scripts/extract-latest-release.js:12-22 | When a section is found, the notes do not depend on the package version. |
| `ExtractLatestRelease.ExtractExample` | scripts/extract-latest-release.js:17-22 | A two-section changelog gives the newest section, cut before the older heading, with its trailing newline trimmed. |
| `ExtractLatestRelease.Run` | scripts/extract-latest-release.js:7-35 | Exit status 0 exactly when the changelog is read and the notes are written; the file then holds the extracted notes. Otherwise the error handler runs and the status is 1: the file holds the fallback note when the handler's own write succeeds, and nothing when it fails too. |
| `Release.Resolve` | scripts/release.js:30-47 | The trimmed, lower-cased answer selects minor exactly when it is a minor label, and major exactly when it is a major label. Every other answer falls to patch. |
| `Release.Normalize` | scripts/release.js:30 | The key the `switch` compares has no whitespace at its ends. |
| `Release.NormalizeIdempotent` | scripts/release.js:30 | Normalising a key again gives the same key. |
| `Release.Name` | scripts/release.js:53 | Each type's name is one of the `case` labels of that type's own branch. `ResolveName` shows it selects that type again. |
| `Release.NormalizeTrimmed` | scripts/release.js:30 | An answer with no whitespace at its ends is only lower-cased before the lookup. |
| `Release.ResolveName` | scripts/release.js:30-47 | Each release type's name, as passed to standard-version, selects that type again. |
| `Release.ResolveIgnoresPadding` | scripts/release.js:30 | Whitespace around an answer does not change the release type. |
| `Release.LowerCharKeepsSpace` | scripts/release.js:30 | Lower-casing never moves a character into or out of the whitespace set. |
| `Release.ToLowerAsciiIdempotent` | scripts/release.js:30 | Lower-casing twice is lower-casing once. |
| `Release.ResolveIgnoresCase` | scripts/release.js:30 | An answer selects the same release type as its lower-cased spelling. |
| `Release.ResolveCore` | scripts/release.js:30 | An answer made of whitespace, a word with non-whitespace ends, and whitespace selects what the lower-cased word selects. |
| `Release.ResolvePaddedMajor` | scripts/release.js:30-43 | `  MAJOR ` selects major. |
| `Release.ResolvePatchLabels` | scripts/release.js:31-35 | An answer that trims to `0`, `p` or `patch` selects patch. |
| `Release.ResolveMinorLabels` | scripts/release.js:36-40 | An answer that trims to `1`, `m` or `minor` selects minor. |
| `Release.ResolveMajorLabels` | scripts/release.js:41-44 | An answer that trims to `2` or `major` selects major. |
| `Release.ResolveBlank` | scripts/release.js:45-46 | An empty or whitespace-only answer, which is the prompt's advertised default, selects patch. |
| `Release.ReleaseCommand` | scripts/release.js:53 | The command is `npx standard-version --release-as ` followed by `patch`, `minor` or `major`, and that argument resolves back to the chosen type. |
| `Release.ResolveUpperMIsMinor` | scripts/release.js:21-40 | As written, an answer that trims to `M` selects minor, exactly like `m`, although the banner announces `M` as major. |
| `Release.ResolveAsAnnounced` | scripts/release.js:21-26 | Corrected resolution: `M` alone selects major, and every other answer resolves as the script resolves it. |
| `Release.AnnouncedShortCodes` | scripts/release.js:21-26 | Under the corrected resolution, the six announced short codes select the announced types: `0`/`p` patch, `1`/`m` minor, `2`/`M` major. |
| `SetupAutomation.Accepts` | scripts/setup-automation.js:71-74 | The `toLowerCase() !== 'n'` test. Characterised by `AcceptsIff`: it declines exactly `n` and `N`. |
| `SetupAutomation.AcceptsIff` | scripts/setup-automation.js:71-74 | An answer enables its feature unless it is exactly `n` or `N`. No trimming is done. |
| `SetupAutomation.AcceptsExamples` | scripts/setup-automation.js:64-74 | The empty answer, `y`, `no` and ` n` enable a feature. `n` and `N` decline it. |
| `SetupAutomation.SelectedFeatures` | scripts/setup-automation.js:183-195 | The features reported as installed are exactly the enabled ones, and there are no more of them than features asked about. |
| `SetupAutomation.SelectedInOrder` | scripts/setup-automation.js:183-195 | The reported features keep question order: any two of them appear among the features asked about in the same relative order. |
| `SetupAutomation.FeatureFiles` | scripts/setup-automation.js:25-40 | Every feature owns at least one template file, and every template keeps its relative path. |
| `SetupAutomation.FeatureFilesDisjoint` | scripts/setup-automation.js:25-40 | No template file belongs to two features. |
| `SetupAutomation.LastSlash` | scripts/setup-automation.js:91 | The position of the last `/` in a path, with no `/` after it. |
| `SetupAutomation.Dirname` | scripts/setup-automation.js:91 | `path.dirname` of a table path. Characterised by `DirnameSplits`: the directory is everything before the last `/` when that `/` is not the first character. |
| `SetupAutomation.DirnameSplits` | scripts/setup-automation.js:91 | A path with a separator after its first character is its directory name, a `/`, and a last component with no `/`. |
| `SetupAutomation.CopySteps` | scripts/setup-automation.js:86-98 | For each entry, in order, the destination's directory is ensured and then the file is copied. |
| `SetupAutomation.InFilesOfIff` | scripts/setup-automation.js:83-86 | A template is in the file lists of some features exactly when one of them owns it. |
| `SetupAutomation.FilesOfAppend` | scripts/setup-automation.js:83-86 | The file list of two runs of features is the first run's list followed by the second's. |
| `SetupAutomation.CopyStepsAppend` | scripts/setup-automation.js:86-98 | The copy steps for two lists are the first list's steps followed by the second's. |
| `SetupAutomation.CopyStepsCopiesIff` | scripts/setup-automation.js:86-98 | The copy steps copy a source to a destination exactly when that entry is in the list. |
| `SetupAutomation.CopyLoop` | scripts/setup-automation.js:83-101 | The copy loop over the features. Characterised by `CopyLoopIsSelectedFiles` and `CopiedIff`: it copies the enabled features' files in order, and only those. |
| `SetupAutomation.CopyLoopIsSelectedFiles` | scripts/setup-automation.js:83-101 | The copy loop copies, in order, the concatenated files of the enabled features. |
| `SetupAutomation.CopiedIff` | scripts/setup-automation.js:83-101 | A feature's template is copied exactly when that feature is enabled. |
| `SetupAutomation.CopyAfterEnsureDir` | scripts/setup-automation.js:90-97 | Every copy comes immediately after ensuring its destination's directory. |
| `SetupAutomation.FileActions` | scripts/setup-automation.js:77-147 | File operations: the `scripts` directory first, then the copy loop, then `chmod 755` on `scripts/release.js` exactly when versioning is enabled. The plan has exactly one step more than the copy loop, plus one when versioning is enabled. |
| `SetupAutomation.ExecutableWasCopied` | scripts/setup-automation.js:146-147 | The release script that is made executable is one the versioning feature copied. |
| `SetupAutomation.FeatureDefaultsShape` | scripts/setup-automation.js:111-177 | Each block's scripts have distinct keys and non-empty values, and they cover exactly that feature's script keys. |
| `SetupAutomation.ScriptKeysDisjoint` | scripts/setup-automation.js:111-177 | Different features never add the same script key. |
| `SetupAutomation.FeatureDefaultsDisjoint` | scripts/setup-automation.js:111-177 | Different features' default maps share no key. |
| `SetupAutomation.IsSet` | scripts/setup-automation.js:112 | The truthiness test `!packageJson.scripts?.k`: a script counts as set when present and not empty. Used by `AddIfUnset` and `FillUnset`, and characterised through `MergeKeepsSetScripts`. |
| `SetupAutomation.FeatureScripts` | scripts/setup-automation.js:111-177 | The script table of the three blocks: `format` (line 114), `prepare` (line 133) and the five release scripts (lines 158-176) with their values. `FeatureDefaultsShape` shows its keys are distinct and its values non-empty. |
| `SetupAutomation.AddDefaults` | scripts/setup-automation.js:156-177 | One block's independent add-if-missing checks, in order. Characterised by `AddDefaultsIsFill`: they equal one fill of the block's defaults. |
| `SetupAutomation.ApplyFeature` | scripts/setup-automation.js:111-177 | The scripts part of one feature block. Characterised by `ApplyFeatureIsFill`: it fills that feature's defaults. |
| `SetupAutomation.AddIfUnset` | scripts/setup-automation.js:112-114 | A script that is set keeps its value. A missing or empty one takes the default. No other key is added, removed or changed. |
| `SetupAutomation.FillAfterAdd` | scripts/setup-automation.js:112-114 | One add-if-unset check followed by a fill of other keys is a single fill. |
| `SetupAutomation.FillNothing` | scripts/setup-automation.js:103-181 | Filling from no defaults leaves the scripts unchanged. |
| `SetupAutomation.AddDefaultsIsFill` | scripts/setup-automation.js:156-177 | A block's sequence of independent add-if-missing checks equals one fill of its defaults. |
| `SetupAutomation.ApplyFeatureIsFill` | scripts/setup-automation.js:111-177 | Each feature block equals the fill of that feature's defaults. |
| `SetupAutomation.OptionalBlockIsFill` | scripts/setup-automation.js:104-181 | A block guarded by its answer is a fill of the feature's defaults or of nothing. |
| `SetupAutomation.FillCompose` | scripts/setup-automation.js:103-181 | Two fills with disjoint keys equal one fill of their union. |
| `SetupAutomation.FillCommute` | scripts/setup-automation.js:103-181 | Two fills with disjoint keys can run in either order. |
| `SetupAutomation.FillIdempotent` | scripts/setup-automation.js:103-181 | Filling twice with the same defaults is filling once. |
| `SetupAutomation.MergeScripts` | scripts/setup-automation.js:103-181 | The three manifest blocks in source order. Characterised by `MergeIsFill`: together they fill the defaults of every enabled feature at once. |
| `SetupAutomation.MergeIsFill` | scripts/setup-automation.js:103-181 | The three manifest blocks, in source order, fill the defaults of every enabled feature at once. |
| `SetupAutomation.SelectedKeysIff` | scripts/setup-automation.js:103-181 | A key may be added exactly when some enabled feature owns it. |
| `SetupAutomation.SelectedDefaultsKeys` | scripts/setup-automation.js:103-181 | The combined defaults cover exactly the enabled features' keys. |
| `SetupAutomation.SelectedDefaultsAt` | scripts/setup-automation.js:103-181 | An enabled feature's key takes that feature's default in the combined defaults. |
| `SetupAutomation.SelectedDefaultsNonEmpty` | scripts/setup-automation.js:114-176 | No default value the installer writes is the empty string. |
| `SetupAutomation.MergeKeepsSetScripts` | scripts/setup-automation.js:112-177 | A script that is already set is never changed. |
| `SetupAutomation.MergeSetsEnabledScripts` | scripts/setup-automation.js:111-177 | Every script of an enabled feature ends up set. It takes the feature's default when it was missing or empty. |
| `SetupAutomation.MergeLeavesOtherKeys` | scripts/setup-automation.js:103-181 | Keys that no enabled feature owns are neither added nor changed. |
| `SetupAutomation.VersioningSetsReleaseScripts` | scripts/setup-automation.js:155-177 | With versioning enabled, `release`, `release:patch`, `release:minor`, `release:major` and `publish:github` are all set afterwards. |
| `SetupAutomation.MergeIdempotent` | scripts/setup-automation.js:103-181 | Merging again with the same answers changes nothing. |
| `SetupAutomation.FeatureBlocksCommute` | scripts/setup-automation.js:103-181 | The order in which two feature blocks run does not matter. |
| `SetupAutomation.Setup` | scripts/setup-automation.js:51-198 | A missing manifest gives the not-found error, and an unparseable one the unreadable error, both before any question. A run is aborted exactly when the failing command is one the enabled blocks reach; it reports nothing, has done a prefix of the planned file operations (with the `chmod` only when the versioning install fails), and has filled only the defaults of the blocks finished before the command. Otherwise the run reports the enabled features, performs the planned file operations, and fills the scripts from the enabled features' defaults. |
| `SetupAutomation.Runs` | scripts/setup-automation.js:104-153 | A command is reached only inside its enabled block, and the GitHub Actions feature installs nothing. `Setup`'s abort ensures make a run abort exactly on a reached failing command. |
| `SetupAutomation.BlocksDone` | scripts/setup-automation.js:108-152 | How many manifest blocks have written their scripts when each command fails: none at line 108, prettier at line 125, and prettier and husky at lines 140 and 152. Used by `ScriptsAtFailureIsFill`. |
| `SetupAutomation.RunBlock` | scripts/setup-automation.js:104-181 | A feature block's scripts run only under its `toLowerCase() !== 'n'` guard (lines 104, 121, 144). Characterised by `OptionalBlockIsFill`. |
| `SetupAutomation.ScriptsAtFailure` | scripts/setup-automation.js:103-152 | The scripts as they stand when a command fails. Characterised by `ScriptsAtFailureIsFill`. |
| `SetupAutomation.DefaultsAtFailure` | scripts/setup-automation.js:103-152 | The defaults of the enabled features whose blocks finished before the failing command. `ScriptsAtFailureIsFill` shows they are what the aborted run filled. |
| `SetupAutomation.ActionsAtFailure` | scripts/setup-automation.js:77-152 | The file operations an aborted run has done: the directory, the whole copy loop, and the `chmod` of line 147 only when the install at line 152 fails. `Setup`'s abort ensures show this is a prefix of `FileActions` with that exact length. |
| `SetupAutomation.ScriptsAtFailureIsFill` | scripts/setup-automation.js:103-152 | The blocks that finished before a failing command fill their enabled features' defaults at once. |
| `SetupAutomation.PrettierInstallFailureAddsNothing` | scripts/setup-automation.js:104-117 | A failed prettier install leaves the scripts unchanged: `format` is not added and the later blocks never run. |
| `SetupAutomation.HuskyInitFailureKeepsPrepare` | scripts/setup-automation.js:130-140 | A failed `npx husky init` still leaves `prepare` set, because the husky block wrote it first. |
| `SetupAutomation.SetupIdempotent` | scripts/setup-automation.js:51-198 | Re-running on the manifest a completed run produced, with the same answers and no failing command, performs the same file operations and leaves the scripts as they are. |
| `SetupAutomation.DeclinedFeatureUntouched` | scripts/setup-automation.js:83-181 | Whether or not a command fails, a declined feature is not reported, none of its files is copied, and none of its scripts is added or changed. |
| `Greeting.Greet` | src/index.ts:10-12 | The greeting is `Hello, `, then the name unchanged, then `!`, which makes it eight characters longer than the name. |
| `Greeting.GreetedName` | src/index.ts:10-12 | A name read back out of a greeting is eight characters shorter than the greeting. |
| `Greeting.GreetRoundTrip` | src/index.ts:10-12 | The name can be read back from its greeting. |
| `Greeting.GreetedNameSound` | src/index.ts:10-12 | Whatever is read back from a greeting greets to that same greeting. |
| `Greeting.GreetInjective` | src/index.ts:10-12 | Different names give different greetings. |
| `Greeting.GreetExamples` | src/index.test.ts:5-9 | `John` gives `Hello, John!`, and the empty name gives `Hello, !`. |

## Left out

- Prompting, console output and banners are not modelled. The answers typed at
  the prompts are inputs, and the "installed" summary is the list of reported
  features.
- File-system effects are not modelled. This covers reading the changelog and the
  manifest, the `existsSync` checks, and real copies, `mkdir` and `chmod`. The
  installer returns its file operations as a plan, and an "ensure directory" step
  stands for "create it if it is missing". A failure of a copy or a `chmod` is not
  modelled.
- External commands are not run. For the installer, only their outcome is
  modelled: `Setup` takes the first command that fails, if any, and an aborted run
  keeps what was done before it. Left out are:
  - the `devDependencies` checks that decide whether an `npm install` runs
    (setup-automation.js:106, 123, 150); they are folded into the failing-command
    input;
  - the `standard-version` run and its failure path (release.js:51-64).

  Changes such commands make to `package.json` on disk are also left out. The
  installer can write its own in-memory copy over them, because each write
  (lines 115, 134 and 179) replaces the whole file with the manifest read at the
  start plus the installer's own additions. A change survives when no later write
  follows it. For example, the prettier `npm install` at line 108 keeps its
  effect when `format` is already set and husky and versioning are declined. The
  changes of `npx husky init` at line 140 are overwritten only when versioning is
  enabled, since line 179 is the only write after it.
- Manifest writes are not modelled one by one. The prettier and husky blocks write
  `package.json` only when they add their script (setup-automation.js:112-116,
  131-135); the versioning block always writes (line 179). Every addition is
  written before the next external command runs, so the model gives, for a
  completed or an aborted run, the `scripts` object as last written. Fields other
  than `scripts`, and the JSON layout written, are left out.
- Script values are modelled as strings, and only the empty string counts as
  falsy. Non-string values (`null`, numbers, `false`) are not modelled, and neither
  is a `scripts` field that is not an object.
- ExtractLatestRelease.Run: a write to `LATEST_RELEASE.md` that fails is taken to
  leave no file. A partially written file, or one left by an earlier run, is not
  modelled.
- The package version is an input to the extractor. A `package.json` that cannot
  be read makes the extractor's error handler throw again; that crash is not
  modelled.
- Path joining with the template directory and the working directory is left out,
  because both sides of each table entry are relative paths.
- JsStrings.ToLowerAscii: lower-cases ASCII letters only. Full Unicode
  `toLowerCase` gives the same decision in every comparison the scripts make. Each
  compared key (`n`, `0`, `1`, `2`, `p`, `m`, `patch`, `minor`, `major`) is plain
  ASCII. Only two non-ASCII characters lower-case to text containing an ASCII
  letter. The Kelvin sign becomes `k`, and no key contains a `k`. Capital I with
  dot above (U+0130) becomes `i` followed by the combining dot U+0307. That mark
  stays in the lower-cased text and no key contains it, so the text still equals
  no key, `minor` included.
- Strings are sequences of Unicode scalar values, not UTF-16 code units. `\s`,
  `trim` and the pattern only involve characters of the Basic Multilingual Plane,
  where the two agree.
- Release.ResolveIgnoresCase: stated only for answers with no whitespace at their
  ends. Release.ResolveCore extends it to whitespace around such answers.
- `SetupAutomation.Dirname` follows `path.dirname` only for paths without a
  trailing or doubled `/`. All paths in the feature table are of that kind.
- The template file contents, `jest.config.js`, `.eslintrc.js`, and the
  direct-run branch of `src/index.ts` (lines 15-17) are left out.

## Findings

| source | as written | input that shows it | evidently intended | confidence | as-written member | corrected member |
|---|---|---|---|---|---|---|
| scripts/release.js:21-40 | The banner (line 23) and the prompt (line 26) offer `M` as the short code for major. The `switch` lower-cases the answer first, and `m` is a minor label. | answer `M` selects minor | `M` selects major, as announced | medium; not executed | `Release.ResolveUpperMIsMinor` | `Release.ResolveAsAnnounced`, proved by `Release.AnnouncedShortCodes` |

The rest of the model keeps the script's actual behaviour, `Release.Resolve`, because
that is what runs. `Release.ResolveAsAnnounced` is the definition the banner promises.
