# i18n locale scripts, modelled in Dafny

The repository keeps one JSON file per namespace and language under
`public/locales/<lang>/<namespace>.json`. English (`en`) is the reference, and
`ar`, `es`, `fr`, `de` and `ru` are the target languages. Five Node scripts keep
the target files in step with English:

- **audit** (`scripts/i18n-audit.mjs`) flattens every English file to its dotted
  key paths. It classifies each target copy as missing, unparseable, or parsed
  with missing / untranslated / extra keys, and counts errors and warnings.
  Any error gives exit status 1.
- **coverage report** (`scripts/i18n-coverage-report.mjs`) counts translated,
  untranslated and missing keys per namespace and language, and sums them per
  language.
- **sync** (`scripts/i18n-sync-keys.mjs`) rebuilds every target file from the
  English structure, keeping existing translations. It rewrites a file when its
  flattened key count grew or when it had obsolete top-level keys.
- **skeleton generator** (`scripts/i18n-generate-skeletons.mjs`) writes a copy of
  the English tree, with `[TRANSLATE: path] text` placeholders, for every target
  file that does not exist yet.
- **check** (`scripts/i18n-check.ts`) is the deployment gate. Every language,
  English included, must have every namespace file, and each file must hold
  every English key path.

## How the model is built

- A JSON value is a datatype (`Json.Value`). An object is the sequence of its
  entries in order.
- The locale directory is a map from (language, file name) to `Absent`,
  `ParseError` or `Tree(entries)` (`Files.FileMap`). Reading and writing files
  become lookups and updates of this map.
- An unguarded `JSON.parse` or `readFileSync` that throws ends the run with
  `Run.Crashed(lang, file)`; Node exits with status 1.
- The key walks (`getAllKeys`, `findUntranslated`, `flattenObject`, `syncKeys`,
  `generateSkeleton`, `keysOf`) are recursive in the scripts. They are pairs of
  mutually recursive functions: one over an entry list and one over a single
  entry.
- They are measured against one reference view of a tree, `KeyTree.Leaves`.
  That view lists every leaf with the key sequence that reaches it, and
  `KeyTree.At` is the path lookup.
- Each script's loops are `method`s with loop invariants. Each is proved equal to
  a recursive specification function of the inputs. The properties of the run
  are proved as lemmas about those functions.
- The list of English file names that `readdirSync` would produce is a
  parameter. The check's `NAMESPACES` and every script's language list are the
  scripts' own constants.

## Model

| member | source | states |
|---|---|---|
| Json.Lookup | scripts/i18n-sync-keys.mjs:28 | `target[key]` is undefined exactly when `key` is not one of the object's keys |
| Json.LookupUnique | scripts/i18n-sync-keys.mjs:28 | in an object as `JSON.parse` builds it (no repeated key), looking up the i-th key finds the i-th value |
| Json.PlaceholderIsMarked | scripts/i18n-sync-keys.mjs:32 | every `[TRANSLATE: path] text` placeholder contains the `[TRANSLATE` marker the audit looks for |
| Seqs.Without | scripts/i18n-audit.mjs:72-74 | `xs.filter(k => !ys.includes(k))` holds exactly the elements of `xs` not in `ys`, in `xs` order |
| Seqs.WithoutEmpty | scripts/i18n-audit.mjs:76 | the filtered list is empty iff every element of `xs` is in `ys` |
| Seqs.Dedup | scripts/i18n-sync-keys.mjs:129 | the keys of an object built by assignment: no duplicates, and the same elements as the assigned keys |
| Seqs.DedupCard | scripts/i18n-sync-keys.mjs:80-81 | the object has one key per distinct assigned key |
| KeyTree.Leaves | scripts/i18n-audit.mjs:8-19 | every listed leaf has a non-empty key sequence starting at a top-level key, and its value is not an object |
| KeyTree.LeavesSound | scripts/i18n-audit.mjs:10-16 | in a tree without repeated keys, following a listed leaf's keys from the root finds that leaf's value |
| KeyTree.LeavesComplete | scripts/i18n-audit.mjs:10-16 | every key path that reaches a non-object value is listed, with that value |
| KeyTree.MarkedPathsSubsequence | scripts/i18n-audit.mjs:21-32 | the paths of the marked leaves keep their order within the paths of all leaves |
| Audit.GetAllKeysAreLeafPaths | scripts/i18n-audit.mjs:8-19 | `getAllKeys` lists one dotted path per leaf, in entry order |
| Audit.FindUntranslatedAreMarkedLeaves | scripts/i18n-audit.mjs:21-32 | `findUntranslated` lists exactly the paths of the string leaves that contain `[TRANSLATE`, in order |
| Audit.UntranslatedSubsequenceOfKeys | scripts/i18n-audit.mjs:21-32 | the untranslated paths are some of the key paths, in the same order |
| Audit.PairContribution | scripts/i18n-audit.mjs:56-101 | a missing or unparseable copy adds exactly 1 error and no warning. A parsed copy adds at most 2 errors and 1 warning. It adds no error iff it has every English path and no placeholder, and no warning iff it has no path English lacks |
| Audit.AllKeysPresentIff | scripts/i18n-audit.mjs:103-105 | the "All keys present and translated" line appears iff the copy parses, has no placeholder, and has exactly the English key paths |
| Audit.ErrorSumPositive | scripts/i18n-audit.mjs:58-91 | the error count of a list of pairs is positive iff some pair has an error |
| Audit.SumBounds | scripts/i18n-audit.mjs:58-100 | a list of pairs adds at most two errors and one warning per pair |
| Audit.GridErrorsPositive | scripts/i18n-audit.mjs:46-108 | the errors of all (file, language) pairs are positive iff some pair has an error |
| Audit.GridBounds | scripts/i18n-audit.mjs:46-108 | rows of `n` pairs add at most `2n` errors and `n` warnings each |
| Audit.TotalsAreGrid | scripts/i18n-audit.mjs:43-108 | the final counters are those of the grid of pair statuses |
| Audit.TotalErrorsPositive | scripts/i18n-audit.mjs:43-108 | `errorCount > 0` iff some (file, language) pair has an error; at most 10 errors and 5 warnings per English file |
| Audit.CheckPair | scripts/i18n-audit.mjs:71-101 | the counting of one parsed or unparsed copy adds the errors and warnings its classification gives |
| Audit.AuditFile | scripts/i18n-audit.mjs:53-106 | the loop over `REQUIRED_LANGS` adds the errors and warnings of that file's row of statuses |
| Audit.RunAudit | scripts/i18n-audit.mjs:46-121 | the run crashes iff some English file does not parse, and then names the first such file. Otherwise it ends with the grid's totals, and exit status 1 iff some pair has an error |
| Coverage.TranslatedBounds | scripts/i18n-coverage-report.mjs:84 | with no repeated paths and placeholders only at English paths, `translated` lies between 0 and the English key count |
| Coverage.NegativeTranslated | scripts/i18n-coverage-report.mjs:84 | a placeholder at a key English lacks drives `translated` to -1, since it is a plain difference |
| Coverage.NamespaceOfPlainName | scripts/i18n-coverage-report.mjs:49 | `file.replace('.json', '')` gives back a dot-free name from its file name |
| Coverage.ReplaceFirstOnly | scripts/i18n-coverage-report.mjs:49 | only the first `.json` is removed, so `a.json.json` becomes the namespace `a.json` |
| Coverage.CoverageMapEntries | scripts/i18n-coverage-report.mjs:55 | `coverage` has exactly the namespaces of the files, and a namespace shared by several files holds the last one's entry |
| Coverage.OverallBalanced | scripts/i18n-coverage-report.mjs:53-98 | each language's summed total equals `totalEnKeys` and splits exactly into translated, untranslated and missing |
| Coverage.CoverFile | scripts/i18n-coverage-report.mjs:60-99 | the language loop crashes iff some target copy does not parse. Otherwise it sets one entry per language and adds each language's counts to `overallStats`, leaving the other languages alone |
| Coverage.BuildReport | scripts/i18n-coverage-report.mjs:43-100 | the report loop crashes iff some English file or target copy does not parse. Otherwise it ends with `totalEnKeys`, `coverage` and `overallStats` as the specification functions define them |
| Coverage.ReportBalanced | scripts/i18n-coverage-report.mjs:102-105 | in a finished report every language's total equals `totalEnKeys` and is translated + untranslated + missing |
| Flatten.Assign | scripts/i18n-sync-keys.mjs:129 | `result[fullKey] = value`: the key keeps its place if present or is appended; that key now gives `value` and every other key is unchanged |
| Flatten.AssignAllLookup | scripts/i18n-sync-keys.mjs:127 | after `Object.assign(result, part)` a key gives its last value in `part`, else its old value |
| Flatten.FlattenKeys | scripts/i18n-sync-keys.mjs:122-133 | the keys of `flattenObject(obj)` are the distinct `getAllKeys` paths in order of first occurrence; their number is the number of distinct paths |
| Flatten.FlattenValues | scripts/i18n-sync-keys.mjs:122-133 | each flattened key maps to the value of the last leaf with that dotted path |
| Flatten.FlattenCollision | scripts/i18n-sync-keys.mjs:125-129 | `{"a.b": 1, a: {b: 2}}` flattens to the single key `a.b` with value 2 |
| Sync.SyncKeys | scripts/i18n-sync-keys.mjs:11-41 | `synced` has exactly the source's top-level keys in source order. `obsolete` holds exactly the target's top-level keys the source lacks, in target order |
| Sync.SyncedUnique | scripts/i18n-sync-keys.mjs:15 | the synced object has no repeated key when the source has none |
| Sync.SyncLeafRule | scripts/i18n-sync-keys.mjs:26-33 | a leaf key of the synced object holds the kept translation or the placeholder naming its path |
| Sync.SyncNestedRule | scripts/i18n-sync-keys.mjs:18-25 | a nested key holds the whole record of the recursive call, made against `target[key] \|\| {}` |
| Sync.SyncFlatIdempotent | scripts/i18n-sync-keys.mjs:11-41 | for a flat source, syncing the synced object again changes nothing and reports no obsolete key |
| Sync.FlatCountIsDistinctPaths | scripts/i18n-sync-keys.mjs:80-81 | `Object.keys(flattenObject(x)).length` is the number of distinct `getAllKeys` paths of `x` |
| Sync.SyncTarget | scripts/i18n-sync-keys.mjs:70-104 | one target file: a missing file syncs as `{}`, an unparseable one crashes, and the outcome is `Apply` of the computed pair |
| Sync.SyncFile | scripts/i18n-sync-keys.mjs:61-105 | the loop over `TARGET_LANGS` for one English file computes the specification fold |
| Sync.RunSync | scripts/i18n-sync-keys.mjs:56-106 | the whole run computes the specification fold over the English files |
| Sync.SyncLangStep | scripts/i18n-sync-keys.mjs:70-104 | one target file crashes iff it does not parse; otherwise only that file may change and the totals only grow |
| Sync.SyncLangsFacts | scripts/i18n-sync-keys.mjs:61-105 | one English file's language loop crashes iff some target copy does not parse. Otherwise only parsed target files change, English files stay as they were, and at most `\|langs\|` files are written |
| Sync.SyncLangsCrashSite | scripts/i18n-sync-keys.mjs:73 | a crash names the first target copy that does not parse |
| Sync.SyncEnglishFileFacts | scripts/i18n-sync-keys.mjs:57-105 | one English file stops the run iff the file or one of its target copies does not parse, and the crash names such a file |
| Sync.SyncFilesFacts | scripts/i18n-sync-keys.mjs:56-106 | the run crashes iff some English file blocks it, and the crash names the file that blocks it. A finished run only wrote parsed target files, never made a file unparseable, and wrote at most `\|langs\| * \|files\|` files |
| Sync.EmptyTranslationNotWritten | scripts/i18n-sync-keys.mjs:28-85 | an empty-string translation gets a placeholder in `synced`, but the counts do not change, so the file is not rewritten |
| Sync.NestedSyncWrapsRecord | scripts/i18n-sync-keys.mjs:20-40 | syncing `{a: {b: "T"}}` against English `{a: {b: …}}` gives `{a: {synced: {b: "T"}, obsolete: []}}` |
| Sync.NestedSyncWritten | scripts/i18n-sync-keys.mjs:80-87 | that wrapped result has one more flattened key (`a.obsolete`), so it is written to disk |
| Sync.NestedSyncLosesTranslation | scripts/i18n-sync-keys.mjs:20-41 | syncing the written file again computes, in memory, a placeholder for `b` in place of the translation, and `synced`, `obsolete` as the obsolete keys of `a` |
| Sync.SecondRunNotWritten | scripts/i18n-sync-keys.mjs:80-87 | that second sync is not written: the flattened count stays 2 and no top-level key is obsolete, so `added` and `removed` are 0 and the translation stays on disk at `a.synced.b` |
| Sync.NestedSyncDropsPath | scripts/i18n-sync-keys.mjs:20-25 | the file the first sync writes no longer has the English key path `a.b`, so the audit and the check report it missing |
| Skeletons.SkeletonEntry | scripts/i18n-generate-skeletons.mjs:13-18 | an entry keeps its key and stays a nested object exactly when it was one; a leaf becomes a string |
| Skeletons.SkeletonLeaves | scripts/i18n-generate-skeletons.mjs:11-21 | the skeleton's leaves are the English leaves, at the same key sequences and in the same order, each holding the placeholder for its path and English text |
| Skeletons.SkelPathDot | scripts/i18n-generate-skeletons.mjs:15-17 | the path `generateSkeleton` builds by concatenating `${prefix}${key}.` is the dotted path of the other scripts when the first key is not empty |
| Skeletons.SkeletonLeafValue | scripts/i18n-generate-skeletons.mjs:17 | leaf `i` of the skeleton is `[TRANSLATE: <dotted path>] <English text>` |
| Skeletons.SkeletonKeys | scripts/i18n-generate-skeletons.mjs:11-21 | the audit's `getAllKeys` finds exactly the English key paths in a skeleton |
| Skeletons.SkeletonUntranslated | scripts/i18n-generate-skeletons.mjs:17 | the audit's `findUntranslated` reports every key path of a fresh skeleton |
| Skeletons.GenerateForLang | scripts/i18n-generate-skeletons.mjs:45-62 | the loop over the English files for one language computes the specification fold |
| Skeletons.GenerateSkeletons | scripts/i18n-generate-skeletons.mjs:33-63 | the two loops together compute the specification fold over `TARGET_LANGS` |
| Skeletons.GenerateOneFacts | scripts/i18n-generate-skeletons.mjs:49-61 | one step crashes iff the target is missing and its English file does not parse. Otherwise it counts one file as created or skipped, creates at most that file, and leaves it existing |
| Skeletons.ExistingKept | scripts/i18n-generate-skeletons.mjs:50-53 | an existing target file, even one that does not parse, is never overwritten |
| Skeletons.StuckKept | scripts/i18n-generate-skeletons.mjs:50-56 | creating target files never makes another pair start or stop crashing the run |
| Skeletons.GenerateFilesFacts | scripts/i18n-generate-skeletons.mjs:45-62 | one language's loop crashes iff one of its pairs is stuck. Otherwise each file is counted once and only missing target files were created, each as its English file's skeleton |
| Skeletons.GenerateLangsFacts | scripts/i18n-generate-skeletons.mjs:33-63 | the run crashes iff some (language, file) pair is stuck in the original map. Otherwise `created + skipped == \|files\| * \|langs\|`, and only missing targets were created, each holding its English file's skeleton |
| Skeletons.GenerateLangsCovers | scripts/i18n-generate-skeletons.mjs:36-63 | after a finished run every target file exists |
| Check.KeysOfNoArrays | scripts/i18n-check.ts:10-15 | on a tree with no arrays, `keysOf` lists the same paths in the same order as `getAllKeys` |
| Check.ArrayKeysAreEntries | scripts/i18n-check.ts:11-13 | walking an array is walking its `Object.entries`, whose keys are the indices |
| Check.ArrayIndexPaths | scripts/i18n-check.ts:13 | a one-element array gives the path `k.0` to `keysOf` and `k` to `getAllKeys` |
| Check.EmptyArrayPaths | scripts/i18n-check.ts:11-13 | an empty array contributes nothing to `keysOf` but is a leaf for `getAllKeys` |
| Check.SkeletonPassesCheck | scripts/i18n-check.ts:10-15 | for an English tree without arrays, a freshly generated skeleton has exactly its `keysOf` paths |
| Check.FindMissing | scripts/i18n-check.ts:39-44 | the loop over the reference paths fires iff some reference path is not among the file's paths |
| Check.CheckOneNamespace | scripts/i18n-check.ts:20-45 | one namespace's body computes the specification of that namespace |
| Check.CheckAll | scripts/i18n-check.ts:19-46 | the namespace loop computes the specification fold. It crashes iff some namespace crashes, and a finished run exits with status 1 iff some namespace fails |
| Check.RunCheck | scripts/i18n-check.ts:17-51 | the script over `NAMESPACES` and `LANGS` computes the fold and its exit status |
| Check.CheckLangsFacts | scripts/i18n-check.ts:30-45 | the language loop crashes iff some language file does not parse. Otherwise `failed` is set iff it was set before or some language file is missing or lacks a reference path |
| Check.CheckNamespaceFacts | scripts/i18n-check.ts:20-45 | a missing reference sets `failed` and skips every language; an unparseable one crashes |
| Check.CheckNamespacesFacts | scripts/i18n-check.ts:19-46 | the run crashes iff some namespace crashes. Otherwise `failed` is set iff some reference file is missing, some language file is missing, or some reference path is absent from a language file |
| Check.SelfCheckPasses | scripts/i18n-check.ts:30-44 | because `LANGS` includes `en`, the reference is compared with itself and never misses a path |
| Check.ExtrasNeverFail | scripts/i18n-check.ts:39-44 | a file with every reference path passes, whatever extra paths or placeholder values it holds |
| Merge.MergeEntry | scripts/i18n-sync-keys.mjs:15-34 | a merged entry keeps its key and is a nested object exactly when the reference's is |
| Merge.MergeKeys | scripts/i18n-sync-keys.mjs:9-35 | the merged tree has exactly the reference's key paths, in order, at every depth |
| Merge.MergeLeaves | scripts/i18n-sync-keys.mjs:9-35 | each reference leaf appears at the same path, holding the translation found at that path of the old tree when there is one to keep, else the placeholder naming the path |
| Merge.MergeKeepsTranslations | scripts/i18n-sync-keys.mjs:9-29 | a translation at any depth survives the merge |
| Merge.MergeIdempotent | scripts/i18n-sync-keys.mjs:9-35 | merging the merged tree again against the same reference changes nothing |
| Merge.MergeFresh | scripts/i18n-generate-skeletons.mjs:11-21 | merging into an empty target gives the tree `generateSkeleton` writes |
| Merge.SyncFlatIsMerge | scripts/i18n-sync-keys.mjs:11-41 | on a flat reference the script as written and the corrected merge agree |
| Merge.SkeletonIsFreshSync | scripts/i18n-generate-skeletons.mjs:11-21 | for a flat reference, `generateSkeleton(x)` is `syncKeys({}, x, x).synced` |

## Findings

| source | as written | input that shows it | evidently intended | confidence | as-written member | corrected member |
|---|---|---|---|---|---|---|
| scripts/i18n-sync-keys.mjs:20-25 | a nested object is assigned the whole `{ synced, obsolete }` record that the recursive `syncKeys` returns | English `{a: {b: "B"}}`, target `{a: {b: "T"}}`. The target is rewritten as `{a: {synced: {b: "T"}, obsolete: []}}`, since the flattened count grew by `a.obsolete`. The key path `a.b` is gone from the file, so the audit and the check report it missing. A second run keeps the file as it is: its count stays 2 and nothing is obsolete at the top level | store the recursive call's `.synced`, the "deep merge … preserving existing translations" of line 9 | high; not executed | Sync.NestedSyncDropsPath | Merge.MergeKeepsTranslations |

The sync driver (`Sync.RunSync` and its lemmas) models the script as written,
so its counts are those the script prints. `Merge.DeepMerge` is the corrected
merge, and its properties are proved on their own:

- `Merge.MergeKeys`: it keeps the reference's key paths.
- `Merge.MergeKeepsTranslations`: it keeps translations at every depth.
- `Merge.MergeIdempotent`: merging again changes nothing.
- `Merge.SyncFlatIsMerge`: on flat files, where the defect does not show, it
  agrees with the script.
- `Merge.MergeFresh`: into an empty target, it gives the skeleton generator's
  output.

## Left out

- Directory handling. `readdirSync` listings are a parameter. The early exit
  when `public/locales/en` is missing is not modelled, and neither are
  `mkdirSync` and the report directory.
- `JSON.stringify` formatting and the trailing newline, console output, the
  `slice(0, 5)` / `slice(0, 3)` samples, and error message texts: these are
  presentation and I/O.
- The coverage report's HTML (scripts/i18n-coverage-report.mjs:108-217) and its
  write to disk: these are presentation and I/O.
- The coverage report's `percentage` and the thresholds built on it: this is
  floating-point `Math.round` of a division, NaN for a namespace with no keys.
- `JSON.parse` itself. A file is missing, fails to parse, or parses to an
  object. A file holding a top-level array, string or number is not modelled.
- String indices and characters. `target[key] || {}` of a string (`Json.AsTarget`)
  gives one index entry per character of the model's `string`, a Unicode scalar
  value. `Object.keys` of a JavaScript string gives one key per UTF-16 code unit
  instead, so a character outside the Basic Multilingual Plane gives two keys
  in JavaScript and one in the model.
- Numbers are kept as their source text. `${value}` of a number in a
  placeholder uses that text, not JavaScript's number formatting.
- Key order. JavaScript lists integer-like keys (`"1"`, `"20"`) first, in
  ascending order, whatever the insertion order. The model keeps insertion
  (file) order for every key.
- Inherited properties. `target[key]` and `source.hasOwnProperty` on keys such as
  `constructor` or `__proto__` are not modelled. A key is present iff it is
  one of the object's own entries.
- Repeated keys. Objects come from `JSON.parse`, so no key repeats. The entry
  functions (`Skeletons.Skeleton`, `Sync.SyncEntries`, `Merge.DeepMerge`)
  append one entry per source entry. That is `result[key] = …` only when the
  source has no repeated key: `Json.WellFormed` holds, and every lemma about
  lookups requires it. `flattenObject` is the exception. Its own assignments
  can collide, so it is modelled with real assignment (`Flatten.Assign`).
- Skeletons.SkeletonLeafValue: stated only for leaves whose first key is not
  empty. For a leaf under an empty first key, `generateSkeleton` writes the path
  `.b`, while the other scripts' dotted path is `b`.
- Merge.MergeFresh: stated only for references whose top-level keys are not
  empty, for the same reason.
- Merge.SkeletonIsFreshSync: stated only for flat references. On nested ones the
  sync as written wraps every level (see Findings), so it never equals the
  skeleton there.
- Coverage.TranslatedBounds: only stated under its two conditions, no repeated
  paths and placeholders only at English paths. Without them `translated` can go below zero
  (`Coverage.NegativeTranslated`).
- Concurrency and file-system races between `existsSync` and `readFileSync` are
  not modelled. Each run sees one fixed file map.
