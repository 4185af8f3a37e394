# x-minecraft-launcher: locale checker and Modrinth reference rules, in Dafny

This project models two pure pieces of the X Minecraft Launcher repository and proves
properties of them.

**The locale-completeness checker, `check-i18n.js`.**
- `parseYaml` is a lenient, line-driven parser for a small subset of YAML. It keeps a stack
  of `{obj, indent}` frames and an optional open block scalar (`multilineKey`,
  `multilineIndent`, `multilineValue`).
  - The model has two layers. `YamlParser.Step` is one iteration of the loop as a function
    on a state, and `YamlParser.Parse` runs it over the lines.
  - `YamlParser.ParseYaml` is the loop itself, with a mutable stack and accumulator. Its
    contract says it computes `Parse`.
  - A frame's `obj` is a reference into the result tree. The model names that mapping by
    its path of keys from the root. A write `parent[key] = v` becomes `YamlTree.SetAt`.
  - The stack invariant `YamlParser.Valid` states why this is sound. The frames are the
    ancestors of the top frame's mapping, and only the top mapping is written.
- `getAllKeyPaths` flattens the tree into dot-joined leaf paths (`KeyPaths.KeyPaths`).
- The comparison loop computes, for every locale file other than `en.yaml`:
  - the reference paths it lacks;
  - its own path count;
  - its coverage rounded to a tenth of a percent.

  It then sorts the results (`Coverage.CheckLocales`). The sort is an in-place insertion
  sort on an array, proved equal to a stable functional insertion sort.

**The Modrinth rules of `gameServerModsInstaller.ts`.**
- `parseModrinthProjects` and `parseModrinthModpackUrl`.
- The version choice of `resolveModrinthVersion` and `installServerModpack`.
- The query filter passed to `getProjectVersions`.
- The loader and game-version defaults of `installServerMods`, over the `GameServer` record
  of `GameServerListService.ts`.

These are functions. The URL parser behind `new URL(...)` is a parameter of type
`string -> Option<Url>`, where `None` means the constructor throws.

Reading files, listing the directory and the console report are outside the model.
The checker is a method from the reference text and the listing, given as (name, text)
pairs in directory order, to the sorted results.

## Where the code and its description differ

The model follows the code in each case below.
- **No flush at the end.** A block scalar still open at the end of the input is never
  stored (`YamlParser.CaptureCollects`).
- **Trimming.** The joined block text is trimmed at both ends, not only at the end. The
  first captured line therefore loses its indentation, and later lines keep theirs
  (`YamlParser.BlockTextKeepsInnerIndent`).
- **100.0 with missing keys.** A coverage of 100.0 does not mean nothing is missing. With
  10000 reference keys and one missing, the rounded figure is 100.0
  (`Coverage.HundredWithMissing`). The exact statement is `Coverage.CoverageOfFacts`: the
  missing count is zero iff every reference key is present.
- **0.0 with keys present.** Symmetrically, 0.0 does not mean no key is present. With
  10000 reference keys and only one present, the figure rounds to 0.0
  (`Coverage.ZeroWithOnePresent`).
- **CRLF line endings.** The input is split on `\n` only, so a file with CRLF endings
  leaves a carriage return at the end of each line. `.` does not match it before `$`, so
  a key line that carries a value is skipped entirely (`YamlLines.CrlfValueRejected`).
  A key line with nothing after the colon still matches, because the carriage return is
  white space and `\s*` takes it.
- **Empty reference.** It gives `NaN`, not an error. The model keeps `NaN`
  (`Coverage.Percent.NaN`) instead of assuming a non-empty reference. NaN compares as
  equal in the sort comparator, so the results then stay in listing order
  (`Coverage.AllNaNUnchanged`).
- **Empty slug.** A project piece or modpack string that starts with `:` gives an empty
  slug. Nothing rejects it.

## Model

| member | source | states |
|---|---|---|
| Text.Split | check-i18n.js:9 | `split` on one character gives one more piece than there are separators, and no piece contains the separator |
| Text.SplitJoin | check-i18n.js:9 | splitting pieces joined by a separator that none of them contains gives the pieces back |
| Text.JoinSplit | check-i18n.js:9 | joining the pieces of a split with its separator gives the original text back |
| Text.SplitAppend | xmcl-keystone-ui/src/composables/gameServerModsInstaller.ts:25 | splitting `a + sep + b` gives the pieces of `a` followed by the pieces of `b` |
| Text.LeadingSpaceUnique | check-i18n.js:20 | the leading-space count is the one position where every earlier character is white space and the character there is not |
| Text.TrimStartSkipsSpace | check-i18n.js:40 | trimming the start skips any all-space prefix |
| Text.TrimFixed | check-i18n.js:40-44 | text with no white space at either end is its own trim |
| Text.BlankIsAllSpace | check-i18n.js:21 | `line.trim() === ''` holds exactly when every character is white space |
| Text.Lower | xmcl-keystone-ui/src/composables/gameServerModsInstaller.ts:340 | lower-casing keeps the length and maps each character through the ASCII case map |
| Text.LowerIdempotent | xmcl-keystone-ui/src/composables/gameServerModsInstaller.ts:90 | lower-casing twice equals lower-casing once |
| YamlTree.Find | check-i18n.js:57 | the position of the first entry with the key, or none when no entry has it |
| YamlTree.Put | check-i18n.js:57-65 | `obj[k] = v`: afterwards `k` reads `v` and every other key reads as before; an existing key is overwritten in its place; a new key is appended; unique keys stay unique |
| YamlTree.SetAtStores | check-i18n.js:50-65 | a write through a frame updates the mapping at that frame's path by `Put` |
| YamlTree.SetAtFound | check-i18n.js:57-58 | after the write the new path leads to the stored value and every ancestor is still a mapping |
| YamlTree.SetAtFrame | check-i18n.js:26-27 | a write changes nothing at a path that is neither an ancestor nor a descendant of the written key |
| YamlTree.SetAtUnique | check-i18n.js:57-65 | writes keep every mapping free of duplicate keys |
| YamlTree.LookupAppend | check-i18n.js:50 | following a concatenated path is following its two halves in turn |
| YamlLines.MatchKeyLine | check-i18n.js:35-36 | the key regex on one line: its contract is `YamlLines.MatchKeyLineSpec` |
| YamlLines.MatchKeyLineSpec | check-i18n.js:35 | the key regex matches exactly when the line's first `:` is not at column 0 and no line terminator follows the spaces after it; group 1 is all-space, group 2 is the colon-free text up to the first colon, group 3 is the rest with leading space removed; when the first visible character is `:` the engine backtracks, so the indent is one less and the key is blank |
| YamlLines.KeyAndValueOfLine | check-i18n.js:35-44 | the key is the text before the first colon, trimmed and unquoted; the value is the text after it, trimmed |
| YamlLines.UnquoteQuoted | check-i18n.js:61-63 | text wrapped in a pair of double or a pair of single quotes unquotes to the text inside: quoting then unquoting is the identity |
| YamlLines.UnquoteUnquoted | check-i18n.js:41 | text that is empty, does not start with a quote character, or whose two ends differ is left as it is |
| YamlLines.CrlfValueRejected | check-i18n.js:9-35 | a key line with a value, read from a CRLF file, keeps its carriage return and the regex rejects it |
| YamlLines.ContinuesMeaning | check-i18n.js:20-21 | a line continues a block scalar exactly when it is blank or all of its columns up to and including the key's indent are white space |
| YamlParser.PopFrames | check-i18n.js:46-48 | popping keeps a non-empty prefix of the stack whose top was opened below the line's indent (or is the root), and removes only frames opened at that indent or deeper |
| YamlParser.PopFramesNearest | check-i18n.js:46-48 | on a well-formed stack, exactly the frames opened below the indent stay, the root frame is never popped and the stack stays well-formed |
| YamlParser.StartValid | check-i18n.js:8-10 | the initial state satisfies the stack invariant: the root frame at indent -1, indents strictly increasing, each frame the mapping at a prefix of the top frame's path |
| YamlParser.Step | check-i18n.js:15-67 | one iteration of the loop on the parser state: its contracts are `YamlParser.StepValid`, `YamlParser.SkippedLine`, `YamlParser.KeyLineEffect`, `YamlParser.CaptureCollects` and `YamlParser.CaptureCloses` |
| YamlParser.Apply | check-i18n.js:46-66 | the pop-and-store of a key line: its contract is `YamlParser.ApplyEffect` |
| YamlParser.Parse | check-i18n.js:7-70 | the root after the loop has run over every line: its contracts are `YamlParser.ParseIsMapping` and `YamlParser.RunValid` |
| YamlParser.StepValid | check-i18n.js:15-67 | one line, in any state, preserves the stack invariant |
| YamlParser.RunValid | check-i18n.js:15-67 | the invariant holds after every line |
| YamlParser.ParseIsMapping | check-i18n.js:7-70 | the result is always a mapping with each key at most once in every mapping |
| YamlParser.SkippedLine | check-i18n.js:33-36 | blank lines, comment lines and lines the regex rejects change neither the tree nor the stack |
| YamlParser.KeyLineEffect | check-i18n.js:33-44 | a matching line is applied with the text before its first colon, trimmed and unquoted, as the key, and the text after that colon, trimmed, as the value |
| YamlParser.KeyLineIndent | check-i18n.js:35-38 | the indent is the line's leading white space, or one column less when the text before the colon is blank and the regex backtracks |
| YamlParser.ApplyEffect | check-i18n.js:46-66 | a key line pops exactly the frames opened at its indent or deeper, then either opens a capture without pushing, or stores a fresh empty mapping and pushes a frame for it at this indent, or stores the unquoted scalar, all under the nearest remaining mapping |
| YamlParser.ApplyFrame | check-i18n.js:50-65 | a key line changes nothing in the tree at a path that is neither an ancestor of the parent mapping nor runs through the written key |
| YamlParser.CaptureCollects | check-i18n.js:19-23 | while a capture is open, continuation lines are only collected: the tree and the stack are unchanged, so a capture open at the end of the input is never stored |
| YamlParser.CaptureCloses | check-i18n.js:24-31 | the first other line stores the trimmed, newline-joined captured text under the captured key in the unchanged top mapping, then is processed as an ordinary line |
| YamlParser.BlockTextKeepsInnerIndent | check-i18n.js:27 | trimming the joined text strips the first captured line's indentation and keeps the other lines as captured |
| YamlParser.ParseYaml | check-i18n.js:7-70 | the loop returns `Parse(content)`, the root after the state machine has run over all lines |
| YamlParser.ParseLine | check-i18n.js:33-44 | the loop body outside a capture computes the state-machine step for the line |
| YamlParser.ApplyLine | check-i18n.js:46-66 | the pop-and-store part of the loop body computes `Apply` |
| KeyPaths.AllKeyPaths | check-i18n.js:73-84 | `getAllKeyPaths` at the root: its contracts are `KeyPaths.KeyPathsRenderLeaves`, `KeyPaths.LeavesExact` and `KeyPaths.RootLeafIsBareKey` |
| KeyPaths.KeyPaths | check-i18n.js:73-84 | every entry contributes at least one path |
| KeyPaths.KeyPathsRenderLeaves | check-i18n.js:73-84 | the paths are the leaf key sequences written out with dots, one per leaf and in walk order |
| KeyPaths.LeavesExact | check-i18n.js:73-84 | with unique keys, a key sequence is emitted exactly when it leads to a string or to an empty mapping |
| KeyPaths.LeafHeads | check-i18n.js:75-81 | every emitted key sequence is non-empty and starts with a key of the mapping |
| KeyPaths.KeyPathsUnderPrefix | check-i18n.js:76-78 | every path produced under a non-empty prefix `p` starts with `p + '.'` |
| KeyPaths.RootLeafIsBareKey | check-i18n.js:76 | at the root, a string leaf is reported by its bare key, with no dot |
| Coverage.Dedup | check-i18n.js:89 | `new Set(...)` enumerated in insertion order: its contracts are `Coverage.DedupFacts`, `Coverage.DedupOrder` and `Coverage.DedupDistinct` |
| Coverage.DedupFacts | check-i18n.js:89 | `new Set(...)` holds each path once and exactly the paths of the list |
| Coverage.DedupOrder | check-i18n.js:89 | the set enumerates its values in the order of their first occurrences in the list, so with `Coverage.DedupFacts` the enumeration is fully determined |
| Coverage.DedupDistinct | check-i18n.js:100 | a list without repeats is its own set enumeration |
| Coverage.MissingKeys | check-i18n.js:102 | no more missing keys than reference keys |
| Coverage.MissingKeysFacts | check-i18n.js:102 | a key is missing exactly when the reference has it and the locale does not |
| Coverage.MissingKeysAppend | check-i18n.js:102 | the filter keeps reference order: the missing keys of `a + b` are those of `a` then those of `b` |
| Coverage.MissingPlusPresent | check-i18n.js:102 | missing and present keys split the reference |
| Coverage.CoveredCount | check-i18n.js:108 | `enKeys.size - missing.length` is the size of the intersection of the two path sets |
| Coverage.NothingMissing | check-i18n.js:102 | nothing is missing exactly when every reference key is present |
| Coverage.PercentOf | check-i18n.js:108 | the rounded figure: its contracts are `Coverage.PercentNearest`, `Coverage.PercentEnds` and `Coverage.PercentMonotone` |
| Coverage.PercentNearest | check-i18n.js:108 | the figure `t` is within half a tenth of the exact ratio: `-size <= 2000 * (size - missing) - 2 * size * t < size`, so a tie goes upwards; and it is at most 100.0 |
| Coverage.PercentEnds | check-i18n.js:108 | no key missing gives 100.0 and all missing gives 0.0 |
| Coverage.HundredWithMissing | check-i18n.js:108 | 10000 reference keys with one missing still give 100.0 |
| Coverage.ZeroWithOnePresent | check-i18n.js:108 | 10000 reference keys with only one present still give 0.0 |
| Coverage.PercentMonotone | check-i18n.js:108 | more missing keys never give a higher figure |
| Coverage.Candidates | check-i18n.js:94 | the files checked are exactly the listed `.yaml` files other than `en.yaml` |
| Coverage.CandidatesAppend | check-i18n.js:94 | the filter keeps listing order: the candidates of `a + b` are those of `a`, then those of `b` |
| Coverage.ScanAllLength | check-i18n.js:97-100 | one scan per file |
| Coverage.ScanAllAt | check-i18n.js:97-100 | the scan at position `i` is the read, parse and path set of the file at position `i` |
| Coverage.ScanAllEach | check-i18n.js:97-100 | the scans keep the files' order, one scan per file |
| Coverage.CoverageOfFacts | check-i18n.js:97-110 | one result names its file, counts the file's own distinct paths, lists the missing reference keys and counts them, has nothing missing iff every reference key is present, and has `NaN` exactly when the reference is empty |
| Coverage.ResultsEach | check-i18n.js:96-111 | one result per candidate file, in listing order |
| Coverage.SameKind | check-i18n.js:108 | for one reference, either every result has a figure or every result is `NaN` |
| Coverage.SortedByPercent | check-i18n.js:113 | the stable descending sort: its contracts are `Coverage.SortedPermutes`, `Coverage.SortedDescending`, `Coverage.SortedStable` and `Coverage.AllNaNUnchanged` |
| Coverage.InsertPermutes | check-i18n.js:113 | inserting one result adds exactly that result |
| Coverage.SortedPermutes | check-i18n.js:113 | the sort is a permutation of the results |
| Coverage.SortedDescending | check-i18n.js:113 | when every result has a figure, the sorted results are in descending order of figure |
| Coverage.InsertStable | check-i18n.js:113 | inserting keeps the relative order of results with equal figures and puts the new one after them |
| Coverage.SortedStable | check-i18n.js:113 | for every figure, the results with that figure keep their listing order |
| Coverage.AllNaNUnchanged | check-i18n.js:108-113 | when every figure is `NaN`, as for an empty reference, the sort leaves the results as they were |
| Coverage.Report | check-i18n.js:87-113 | the sorted results: its contract is `Coverage.ReportKeepsListingOrder` |
| Coverage.ReportKeepsListingOrder | check-i18n.js:94-113 | before the sort the `i`-th result is the `i`-th candidate's, and for every figure the report keeps the results with that figure in listing order |
| Coverage.CheckLocales | check-i18n.js:87-113 | the checker returns the candidate files' results, computed against the reference's path set and sorted |
| Coverage.ScanFile | check-i18n.js:98-100 | reading one file gives its name and `new Set(getAllKeyPaths(parseYaml(content)))` |
| Coverage.SortResults | check-i18n.js:113 | `results.sort(...)` on a copy in an array gives the stable descending sort of the results |
| Coverage.CompareAll | check-i18n.js:96-111 | the loop pushes one result per candidate file, in listing order |
| Coverage.SortByPercent | check-i18n.js:113 | the in-place sort leaves the array holding the stable sort of its old contents |
| Coverage.InsertAt | check-i18n.js:113 | one pass inserts element `i` into the sorted prefix before it and leaves the rest of the array alone |
| Coverage.ShiftIn | check-i18n.js:113 | the element moves left past exactly the elements it sorts strictly before, the others shift right by one, and nothing else changes |
| Coverage.InsertSplit | check-i18n.js:113 | insertion places the element after the last element it does not sort before |
| ModsInstaller.ParseProjects | xmcl-keystone-ui/src/composables/gameServerModsInstaller.ts:22-29 | `parseModrinthProjects`: its contracts are `ModsInstaller.ParseProjectsEmpty`, `ModsInstaller.ParseProjectsShape`, `ModsInstaller.ParseProjectsAppend`, `ModsInstaller.ParseAllPieces` and `ModsInstaller.ParseFormatProjects` |
| ModsInstaller.ParseProjectsEmpty | xmcl-keystone-ui/src/composables/gameServerModsInstaller.ts:22-25 | no projects exactly when the input is `null` or every comma-separated piece is blank, which covers `""` |
| ModsInstaller.ParseProjectsShape | xmcl-keystone-ui/src/composables/gameServerModsInstaller.ts:25-27 | at most one project more than there are commas, and no slug or version contains `,` or `:` |
| ModsInstaller.ParseProjectsAppend | xmcl-keystone-ui/src/composables/gameServerModsInstaller.ts:25 | output order follows input order: the projects of `a,b` are those of `a` followed by those of `b` |
| ModsInstaller.ParseAllPieces | xmcl-keystone-ui/src/composables/gameServerModsInstaller.ts:23-25 | the result is one reference per trimmed non-empty piece, for `""` as for any other text |
| ModsInstaller.DropEmptyMembers | xmcl-keystone-ui/src/composables/gameServerModsInstaller.ts:25 | `.filter(Boolean)` keeps exactly the non-empty pieces |
| ModsInstaller.FirstField | xmcl-keystone-ui/src/composables/gameServerModsInstaller.ts:26 | the text up to the first `:`, or all of it when there is none: a prefix with no `:`, followed by `:` unless it is the whole text |
| ModsInstaller.RefOf | xmcl-keystone-ui/src/composables/gameServerModsInstaller.ts:26-27 | one trimmed piece as a reference: its contract is `ModsInstaller.RefOfSpec` |
| ModsInstaller.RefOfSpec | xmcl-keystone-ui/src/composables/gameServerModsInstaller.ts:26-27 | a piece without `:` is a slug with no version; `a:b` has slug `a` and version `b` cut at its next `:` |
| ModsInstaller.ParseFormatProjects | xmcl-keystone-ui/src/composables/gameServerModsInstaller.ts:16-29 | writing references in the documented `slug:version,slug` form and parsing the text gives the references back |
| ModsInstaller.FormatReads | xmcl-keystone-ui/src/composables/gameServerModsInstaller.ts:18 | one written reference is a non-empty comma-free piece that trimming leaves alone and that reads back as itself |
| InstallerExamples.DocExample | xmcl-keystone-ui/src/composables/gameServerModsInstaller.ts:20 | the documented example gives `sodium` at `mc1.21.1-0.6.0-fabric`, `lithium` with no version and `iris` at `1.8.0` |
| ModsInstaller.ParseModpackUrl | xmcl-keystone-ui/src/composables/gameServerModsInstaller.ts:39-65 | `parseModrinthModpackUrl`: its contracts are `ModsInstaller.ModpackNull`, `ModsInstaller.ModpackPage`, `ModsInstaller.ModpackColon` and `ModsInstaller.ModpackBareSlug` |
| ModsInstaller.ModpackNull | xmcl-keystone-ui/src/composables/gameServerModsInstaller.ts:39-65 | `null` is returned only for a missing or empty argument |
| ModsInstaller.ModpackPage | xmcl-keystone-ui/src/composables/gameServerModsInstaller.ts:43-52 | a modrinth.com path starting `modpack/<slug>` gives that slug, with the fourth segment as the version only when the third is `version` |
| ModsInstaller.ModpackColon | xmcl-keystone-ui/src/composables/gameServerModsInstaller.ts:58-62 | any other input with a `:` is split at its first colon, so a non-modrinth URL takes its scheme as the slug |
| ModsInstaller.ModpackBareSlug | xmcl-keystone-ui/src/composables/gameServerModsInstaller.ts:64-65 | any other input without a `:` is a bare slug with no version |
| ModsInstaller.FindVersion | xmcl-keystone-ui/src/composables/gameServerModsInstaller.ts:101 | the position of the first version with the number, or none when no version has it |
| ModsInstaller.ChooseVersion | xmcl-keystone-ui/src/composables/gameServerModsInstaller.ts:94-109 | no version for an empty list; the first version with a requested non-empty number when one has it; otherwise the first version |
| ModsInstaller.ResolveVersionId | xmcl-keystone-ui/src/composables/gameServerModsInstaller.ts:94-109 | no id for an empty list; otherwise the id of the first version with the requested non-empty number when one has it, and the first version's id when none is requested or none has it |
| ModsInstaller.RequestedVersionWins | xmcl-keystone-ui/src/composables/gameServerModsInstaller.ts:253-261 | a requested number that is listed is chosen whatever follows it |
| ModsInstaller.QueryFor | xmcl-keystone-ui/src/composables/gameServerModsInstaller.ts:89-92 | the query `resolveModrinthVersion` sends: its contract, in terms of a server record, is `ModsInstaller.ServerQuery` |
| ModsInstaller.ServerLoader | xmcl-keystone-ui/src/composables/gameServerModsInstaller.ts:340 | the lower-cased server type, or `fabric` when it is absent or empty; never empty and already lower case |
| ModsInstaller.ServerGameVersion | xmcl-keystone-ui/src/composables/gameServerModsInstaller.ts:343 | the game version for a server: its contract, through the query it leads to, is `ModsInstaller.ServerQuery` |
| ModsInstaller.ServerModsRequest | xmcl-keystone-ui/src/composables/gameServerModsInstaller.ts:338-345 | what `installServerMods` hands on: the server's projects, game version and loader; its contract is `ModsInstaller.ServerQuery` |
| ModsInstaller.ServerQuery | xmcl-keystone-ui/src/composables/gameServerModsInstaller.ts:338-345 | the version query made for a server's mods filters by the server's loader; its game-version filter is the supplied game version for a `latest` server, the server's own version otherwise, and absent exactly when that version is empty |

## Left out

- File system access, the directory listing and the console report (check-i18n.js lines
  87-94 and 115-130) are I/O. This includes the listing of files at or above 50% that
  still lack keys. The checker takes the texts as parameters.
- Coverage.PercentOf: the percent is modelled as exact tenths rounded half up. The source
  uses float division, `toFixed(1)` and `parseFloat`. A ratio that lies exactly on a
  twentieth of a percent can round the other way in binary floating point.
- Coverage.SortedByPercent: the model states the sort for the cases that occur. These are
  all results with a figure, or all `NaN` (`Coverage.SameKind`). A mix of the two would
  make the comparator inconsistent, and the engine's order for that case is not modelled.
- Text.Lower: `toLowerCase` is modelled on ASCII letters only. The source applies the full
  Unicode case mapping.
- Strings are sequences of Unicode scalar values, while JavaScript strings are
  sequences of UTF-16 code units. A character outside the Basic Multilingual Plane is
  one character in the model and two code units in the source, so lengths and indent
  counts differ for such characters. White space is the ECMAScript set that `\s` and
  `trim` use.
- JavaScript object quirks: integer-like keys enumerating first in `for...in`, and the
  special `__proto__` key. Mappings are association lists in insertion order, with
  overwrite in place.
- ModsInstaller.ParseModpackUrl: `new URL(...)` is a parameter of the model. The WHATWG URL
  parser is not modelled.
- The async orchestration of the hook is not modelled: `installModrinthMods`,
  `getModpackInfo`, the network, service calls, Vue refs, router navigation and the
  instance lock. Of it the model keeps only the pure rules: the version choice, the query
  filter and the server defaults.
- xmcl-runtime/gameServerList/GameServerListService.ts (an HTTP request and JSON decoding)
  is not part of this model.
- xmcl-keystone-ui/src/composables/gameServerList.ts (Vue state and a template string) is
  not part of this model.
- `GameServer` keeps only the fields the installer reads: `serverType`, `version` and
  `modrinthProjects`. The modpack reference reaches `installServerModpack` as a parameter,
  not through the record. `serverType` is declared a string but read with `?.`, so the
  model lets it be absent.
