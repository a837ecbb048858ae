# echo.env in Dafny

echo.env is a VS Code extension. It keeps a committed template of environment variables, such as
`.env.example`, in step with the real `.env` files, and it never copies a secret value. A sync runs
in four steps:

1. It reads every configured source file that exists, in order. Each `KEY=VALUE` line is folded into
   an insertion-ordered map.
2. It picks the destination file.
3. It rewrites the destination. Lines for keys the sources no longer define are dropped. Every line
   with a key is replaced by `KEY=<placeholder>`. Each missing key gets a new line.
4. It writes the text back.

The release script of the repository computes the next version number from `major`, `minor` or
`patch`, and inserts an empty dated entry under the changelog title.

This project models these parts as pure functions over strings and sequences and proves what they
guarantee.

| file | module | what it holds |
|---|---|---|
| `wrappers.dfy` | `Wrappers` | `Option` and `Result` (an `Err` is a thrown JavaScript error) |
| `seqs.dfy` | `Seqs` | `FlatMap` and its laws |
| `strings.dfy` | `Strings` | The JavaScript string operations the code uses: `trim` with the ECMAScript whitespace set, `split` on one character, `join`, `startsWith`, `indexOf`, `replace` with a string pattern (first occurrence, literal replacement), and ASCII `toLowerCase` |
| `envfile.dfy` | `EnvFile` | Line parsing, the insertion-ordered map (a JavaScript `Map`), and the source-reading loop |
| `template.dfy` | `Template` | The destination rewrite (filter, map, append missing keys, join) and reference descriptions of its result |
| `merge.dfy` | `MergeLaws` | The laws of the rewrite: which keys get lines and in what order, what each key line looks like, which other lines survive, and when a second run is a no-op |
| `sync.dfy` | `Sync` | One sync over a workspace (relative path to file content): destination choice, the reads, and the write |
| `release.dfy` | `Release` | `getNextVersion`, changelog insertion, and the `prepare-` argument |

## Behaviour worth knowing

- **Value.** The value of a source line is the trimmed text between the first and the second `=`.
  Anything after a second `=` is dropped. So `K=a=b` gives `a`, and `K==b` gives no entry
  (`EnvFile.ParseLineShape`).
- **`#` lines.** Nothing treats `#` specially.
  - In a source file, `#X=1` defines the key `#X`.
  - In the destination, `# note` has the key `# note`. It is dropped unless a source defines that key
    (`MergeLaws.CommentLineKey`, `MergeLaws.CommentLineDropped`).
- **Duplicates.** Two destination lines for one key are both kept and both rewritten
  (`MergeLaws.DuplicateKeyLinesKept`).
- **No final newline.** The lines are joined with `\n`, and nothing follows the last one.
- **Empty destination.** `''.trim().split('\n')` is one empty line. The filter keeps it because it
  has no key, so a new destination starts with a blank line (see Findings).
- **Carriage returns.** Lines are split on `\n` only. A keyed line's key is trimmed, so `A=1\r` is
  rewritten without its `\r`. A keyless line is kept verbatim, so the `\r` of a blank line in a
  CRLF file survives (`Template.KeepAndRewriteUnkeyed`).
- **Second sync.** A second merge reproduces the text when both of these hold
  (`MergeLaws.MergeIdempotent`):
  - the first text has no whitespace at either end;
  - the placeholder format contains no `\n`.

  For a whole sync there is a third condition: the destination is not also one of the sources
  (`Sync.SyncIdempotent`). Otherwise the placeholders written there are read back as source values.
  For example, with an empty format and a destination `d` that is also the only source, `B=1`
  becomes `B=`, and the next sync writes the empty text.

  These conditions are sufficient, not necessary. A first sync into an empty destination breaks
  them, and there the second sync does change the file (`Sync.SyncFreshDestination`).
- **Versions.** `getNextVersion` prints only the components the bump keeps. `major` on `1.x.3` gives
  `2.0.0`. `patch` on `x.2.3` gives `NaN.2.4` (`Release.MajorReadsFirstOnly`,
  `Release.PatchOfNonNumeric`). A component the version does not have is `undefined`, and `undefined + 1`
  is `NaN`. So `patch` on `1` gives `1.undefined.NaN` (`Release.PatchOfSingle`).

## Model

| member | source | states |
|---|---|---|
| EnvFile.ParseLine | src/extension.ts:116-117 | One source line's entry, if any. ParseLineShape, ParseLineNoSeparator and ParseLineValid describe it. |
| EnvFile.ParseLineShape | src/extension.ts:116-118 | A line `k=v`, followed by nothing or by another `=`, yields the entry `(trim k, trim v)` exactly when both trimmed parts are nonempty. Whatever follows the second `=` is ignored. |
| EnvFile.ParseLineNoSeparator | src/extension.ts:116-117 | A line without `=` yields no entry, because the value is `undefined`. |
| EnvFile.ParseLineValid | src/extension.ts:114-118 | An entry parsed from one line has a nonempty trimmed key with no `=` and no line break, and a nonempty trimmed value. |
| EnvFile.Put | src/extension.ts:118 | `Map.set` keeps an existing key in its position and appends a new one at the end. The new entry is present, and every other entry is an old one. |
| EnvFile.PutGet | src/extension.ts:118 | After `set(k, v)`, `get(k)` gives `v`, and every other key reads as before. |
| EnvFile.ReadSourceEnvFiles | src/extension.ts:108-124 | The nested loop builds the same map as folding `set` over the entries of all existing sources in order. The result has unique keys. |
| EnvFile.SetLines | src/extension.ts:115-120 | The inner loop over one file's lines extends the fold by that file's entries. |
| EnvFile.BuildKeys | src/extension.ts:110-119 | The map's keys are the source keys in order of first appearance, each once. |
| EnvFile.BuildHasKey | src/extension.ts:110-119 | A key is in the map exactly when some source entry has it. |
| EnvFile.BuildLastWins | src/extension.ts:110-119 | A key's value is the value of its last entry across all lines and files. |
| EnvFile.BuildAppend | src/extension.ts:110-119 | Later entries keep the earlier keys in their positions. A key they set again takes their value. |
| EnvFile.BuildValid | src/extension.ts:110-119 | Folding valid entries gives a map with unique keys. |
| EnvFile.SourceEntriesValid | src/extension.ts:110-119 | Every entry read from any source is valid. |
| EnvFile.MissingSourceSkipped | src/extension.ts:111-112 | A source file that does not exist contributes nothing. |
| EnvFile.LaterSourceWins | src/extension.ts:110-119 | A key set by a later source file takes that file's value, whatever the earlier files said. |
| Strings.Split | src/extension.ts:114 | `split` gives at least one part, no part holds the separator, and joining the parts gives the input back. |
| Strings.Trim | src/extension.ts:144 | `trim` gives text with no whitespace at either end, is never longer, and changes nothing exactly when the input is already trimmed. |
| Strings.TrimSlice | src/extension.ts:144 | The trimmed text is a slice of the input, with only whitespace removed before and after it. |
| Strings.TrimIdempotent | src/extension.ts:144 | Trimming twice is trimming once. |
| Strings.IndexOf | src/extension.ts:154-157 | `indexOf` finds the first occurrence of the pattern, or reports that there is none. |
| Strings.ReplaceFirstSpec | src/extension.ts:154-157 | `replace` with a string pattern changes only the first occurrence. Without an occurrence it changes nothing. |
| Strings.LowerIdempotent | src/extension.ts:156 | Lowercasing twice is lowercasing once, and no capital letter remains. |
| Template.LineKey | src/extension.ts:148 | The key of a destination line. LineKeyOfKeyLine, StartsWithKey and MergeLaws.CommentLineKey describe it. |
| Template.Placeholder | src/extension.ts:154-157 | The placeholder of a key. MergeLaws.PlaceholderSpec describes it. |
| Template.KeepAndRewrite | src/extension.ts:146-161 | The `filter` and `map` over the destination lines. KeepAndRewriteKeys, KeepAndRewriteUnkeyed, KeepAndRewriteShape and KeepAndRewriteFixed describe it. |
| Template.AppendMissing | src/extension.ts:163-171 | The `forEach` that appends missing keys. AppendMissingSpec and HasLineForIff describe it. |
| Template.MergeLinesOf | src/extension.ts:146-171 | The new lines from the old ones. MergeLaws.MergeSpec, MergeKeys, MergeKeySet, MergeShape, MergeUnkeyed and MergeLinesIdempotent describe it. |
| Template.MergeText | src/extension.ts:144-173 | The new destination text from the old content. MergeLaws.MergeIdempotent, SplitMerged and EmptyDestinationDrift describe it. |
| Template.LineKeyOfKeyLine | src/extension.ts:158 | The line written for key `k` has key `k` and starts with `k=`. |
| Template.StartsWithKey | src/extension.ts:164 | A line that starts with `k=` has the key `k`, so `startsWith` matches only that exact key. |
| Template.KeepAndRewriteKeys | src/extension.ts:146-161 | The keys of the kept lines are the destination keys that the map holds, in order, duplicates included. |
| Template.KeepAndRewriteUnkeyed | src/extension.ts:146-161 | Lines without a key pass through verbatim and in order. |
| Template.KeepAndRewriteShape | src/extension.ts:151-161 | Every kept line with a key is exactly `key=placeholder(key)` for a key of the map. |
| Template.KeepAndRewriteFixed | src/extension.ts:146-161 | Lines already in that shape pass filter and map unchanged. |
| Template.AppendMissingSpec | src/extension.ts:163-171 | The `forEach` appends one key line per map key that no line carries, in map order, after all kept lines. |
| Template.HasLineForIff | src/extension.ts:164 | Over rewritten lines, `some(startsWith(k=))` holds exactly when some line has the key `k`. |
| Template.KeyLinesKeys | src/extension.ts:165-169 | The appended lines carry exactly the appended keys, in order. |
| MergeLaws.MergeSpec | src/extension.ts:144-171 | The new lines are the filtered and rewritten destination lines, followed by the key lines of the absent map keys. |
| MergeLaws.MergeKeys | src/extension.ts:146-171 | The output keys are the destination keys the map holds, in order, followed by the map keys no destination line had. |
| MergeLaws.MergeKeySet | src/extension.ts:146-171 | A key has an output line exactly when it is a key of the map. |
| MergeLaws.MergeShape | src/extension.ts:151-169 | Every output line with a key is that key's placeholder line, for a key of the map. No source value is copied. |
| MergeLaws.MergeUnkeyed | src/extension.ts:146-161 | The output's lines without a key are the destination's, verbatim and in order. |
| MergeLaws.MergeLinesIdempotent | src/extension.ts:146-171 | Merging merged lines again changes nothing. |
| MergeLaws.SplitMerged | src/extension.ts:173 | Splitting the joined output on `\n` gives the output lines back. |
| MergeLaws.MergeIdempotent | src/extension.ts:144-173 | A second run over the written text reproduces it when that text has no whitespace at either end and the placeholder format contains no `\n`. |
| MergeLaws.PlaceholderSpec | src/extension.ts:154-157 | The placeholder is the format with its first `${key}` replaced by the lowercased key. A format without the token is used unchanged. |
| MergeLaws.DuplicateKeyLinesKept | src/extension.ts:146-161 | Two destination lines for one key of the map both stay, and both are rewritten. |
| MergeLaws.CommentLineKey | src/extension.ts:148 | The key of `# note` is `# note`. |
| MergeLaws.CommentLineDropped | src/extension.ts:146-150 | A `#` line whose text is not a source key is dropped. |
| MergeLaws.FreshMerge | src/extension.ts:163-171 | With no destination lines, the output is one key line per map key, in map order. |
| MergeLaws.EmptyDestinationDrift | src/extension.ts:138-144 | As written, an empty destination is written as `\n` followed by the key lines, and the second run removes that `\n`. This holds when the map has a key and the format has no `\n` and no whitespace at either end. |
| MergeLaws.EmptyDestinationExample | src/extension.ts:138-144 | With the single source key `A`, the format `${key}` and an empty destination, the first text is `\nA=a` and the second is `A=a`. |
| Template.DestinationLinesFixed | src/extension.ts:144 | The corrected reading of the destination, not the code as written: content that trims to nothing has no lines. FreshText and FreshDestinationStable describe it. |
| Template.MergeTextFixed | src/extension.ts:144-173 | The corrected merge, not the code as written: MergeText with DestinationLinesFixed. FreshText, FreshDestinationStable and MergeFixedIdempotent describe it. |
| MergeLaws.FreshText | src/extension.ts:163-173 | The corrected merge writes an empty destination as the key lines alone, with no whitespace at either end. |
| MergeLaws.FreshDestinationStable | src/extension.ts:138-173 | With the corrected merge, a second run over a freshly written destination reproduces it. |
| MergeLaws.MergeFixedIdempotent | src/extension.ts:144-173 | With the corrected merge, a second run reproduces any written text that has no whitespace at either end, when the placeholder format contains no `\n`. |
| Sync.ReadSources | src/extension.ts:110-113 | Sources are read in configured order, and missing files give nothing. The reads fail exactly when a source names the workspace folder. |
| Sync.FindExisting | src/extension.ts:132-134 | `find` returns the first existing candidate, and no earlier candidate exists. With no existing candidate it returns nothing. |
| Sync.ChooseDestination | src/extension.ts:132-137 | An empty candidate list throws. Otherwise the choice is a candidate, and if it is not the first one, it exists and is not the empty name. |
| Sync.ChooseFirstExisting | src/extension.ts:132-135 | The first existing candidate with a nonempty name is chosen. |
| Sync.ChooseFallback | src/extension.ts:135 | When no candidate with a nonempty name exists, so the first existing one (if any) is the falsy `""`, the first candidate is chosen. |
| Sync.ChooseEmptyFirst | src/extension.ts:132-135 | When the first existing candidate is the empty name, the first candidate is chosen, even if a later candidate exists. |
| Sync.ChooseStable | src/extension.ts:132-135 | Once the chosen destination has been written, the same one is chosen again. |
| Sync.SyncEnvFiles | src/extension.ts:71-74 | One sync: read the sources, choose and read the destination, then write the rewritten text. Its lemmas: SyncFails, SyncWritesDestinationOnly, SyncKeys, SyncRedacts, SyncIdempotent and SyncFreshDestination. |
| Sync.SyncFails | src/extension.ts:108-142 | A sync fails exactly when a source names the workspace folder, no destination is configured, or the workspace folder is the chosen destination. |
| Sync.SyncWritesDestinationOnly | src/extension.ts:175-176 | A successful sync writes the chosen destination and changes no other file. |
| Sync.TextKeys | src/extension.ts:144-173 | In the text the code writes, split on `\n`, a key has a line exactly when it is a key of the map. This holds for every destination content, the empty one included. |
| Sync.SyncKeys | src/extension.ts:108-176 | After a sync, a key has a destination line exactly when some existing source defines it with a nonempty value. The format must contain no `\n`. |
| Sync.SyncRedacts | src/extension.ts:144-173 | After a sync, every keyed line of the destination is its key's placeholder line, so no source value is written. The format must contain no `\n`. |
| Sync.SyncIdempotent | src/extension.ts:132-176 | A second sync leaves the workspace as the first left it when all of these hold: the destination is not also a source, the written text has no whitespace at either end, and the format contains no `\n`. |
| Sync.SyncFreshDestination | src/extension.ts:138-176 | A first sync into a destination that does not exist writes `\n` followed by the key lines. The second sync writes the key lines alone, so the file changes although no source did. This holds when some source defines a key and the format has no `\n` and no whitespace at either end. |
| Release.ParseUpdateType | scripts/update-changelog.js:10-19 | Exactly `major`, `minor` and `patch` are accepted. Anything else throws `Invalid update type`. |
| Release.Bump | scripts/update-changelog.js:11-16 | Each bump gives a version strictly greater in (major, minor, patch) order. |
| Release.BumpIsNext | scripts/update-changelog.js:11-16 | No version of the same kind lies strictly between a version and its bump. |
| Release.BumpsIncrease | scripts/update-changelog.js:8-20 | Any nonempty series of bumps ends above where it started. |
| Release.NatToDecimal | scripts/update-changelog.js:12-16 | A printed number is a nonempty string of digits with no leading zero. |
| Release.DecimalRoundTrip | scripts/update-changelog.js:9 | `Number` applied to a printed number gives the number back. |
| Release.ParseVersion | scripts/update-changelog.js:9 | The version read from a string whose first three components are all numbers. VersionRoundTrip describes it. |
| Release.VersionRoundTrip | scripts/update-changelog.js:9 | Reading a printed version gives the version back. |
| Release.GetNextVersion | scripts/update-changelog.js:8-20 | It throws exactly when the update type is not one of the three words, whatever the version string. It never throws for a malformed version. BumpText, MajorReadsFirstOnly, PatchOfNonNumeric and PatchOfSingle give its text. |
| Release.PrintedComponents | scripts/update-changelog.js:9 | The script reads a printed version back as its three numbers, and there is no fourth component. |
| Release.BumpText | scripts/update-changelog.js:8-20 | On a printed version, the script prints the bumped version. |
| Release.MajorReadsFirstOnly | scripts/update-changelog.js:9-12 | A major release reads only the first component. A numeric first component `M` gives `(M+1).0.0`, whatever follows. |
| Release.PatchOfSingle | scripts/update-changelog.js:9-16 | A version with no `.` and a numeric major `M` gives `M.undefined.NaN` in a patch release. |
| Release.PatchOfOne | scripts/update-changelog.js:9-16 | The version `1` gives `1.undefined.NaN` in a patch release. |
| Release.PatchOfEmpty | scripts/update-changelog.js:9-16 | The empty version gives `0.undefined.NaN` in a patch release. |
| Release.PatchOfNonNumeric | scripts/update-changelog.js:9-16 | A first component that is not a number prints as `NaN` in a patch release. |
| Release.NextVersionSpec | scripts/update-changelog.js:8-20 | On a printed version, `major` gives `(M+1).0.0`, `minor` gives `M.(m+1).0` and `patch` gives `M.m.(p+1)`, each a later version. |
| Release.NewEntry | scripts/update-changelog.js:27-39 | The dated entry with three empty sections. InsertRemove and NewestEntryFirst describe where it lands. |
| Release.InsertEntry | scripts/update-changelog.js:41-44 | The `replace` of the first title line. InsertWithoutHeader, InsertAfterFirstHeader, InsertRemove, InsertKeepsHeader and NewestEntryFirst describe it. |
| Release.UpdateChangelog | scripts/update-changelog.js:22-46 | The changelog after `updateChangelog` on a given day. PrepareMinor describes it end to end. |
| Release.InsertWithoutHeader | scripts/update-changelog.js:41-44 | A changelog without `# Changelog\n` is left unchanged. |
| Release.InsertAfterFirstHeader | scripts/update-changelog.js:27-44 | The entry lands right after the first `# Changelog\n`, and nothing else changes. |
| Release.InsertRemove | scripts/update-changelog.js:41-44 | Cutting the inserted entry out again gives the old changelog back. |
| Release.InsertKeepsHeader | scripts/update-changelog.js:41-44 | After an insertion, the first title line is where it was. |
| Release.NewestEntryFirst | scripts/update-changelog.js:41-44 | Two releases in a row put the newer entry above the older one. |
| Release.UpdateTypeArgument | scripts/update-changelog.js:62 | A missing argument throws. Otherwise the argument loses its first `prepare-`. |
| Release.PrepareStripped | scripts/update-changelog.js:62 | `prepare-<word>` gives `<word>`. A word without `prepare-` is kept as it is. |
| Release.PrepareRelease | scripts/update-changelog.js:62-65 | With no argument, the script throws before it reads anything else. |
| Release.PrepareMinor | scripts/update-changelog.js:62-67 | `prepare-minor` on a printed version inserts the entry for the next minor version right under the title. |

## Left out

- VS Code wiring is not modelled: activation, command registration, the file watcher, the status
  bar, notifications and deactivation. They are host plumbing with no logic to prove.
  `showNotifications` is carried in `Config` but nothing reads it.
- Syncs run concurrently when watcher events overlap. The model runs one sync at a time.
- File I/O is replaced by a workspace map from relative path to content. Only these are modelled:
  - missing files;
  - the workspace folder itself, which `path.join(root, "")` names;
  - the throw when an empty candidate list makes `path.join` receive `undefined`.

  These are not modelled:
  - `path.join` normalisation (`./a`, `a/../b`);
  - other directories;
  - permissions;
  - the `mkdir` before the write.
- The caught error of a failed sync is returned as an `Err`. The message the extension shows for it is
  not modelled.
- Syncing with no open workspace folder is not modelled. It shows an error and does nothing.
- `src/config.ts` is treated as an input record. Two of its fallbacks are not modelled:
  - an empty `placeholderFormat` becomes `${key}`;
  - `showNotifications` is always `true` because of `|| true`.
- String-replacement patterns (`$&`, `$$`, `` $` ``, `$'`) in the lowercased key are not
  interpreted. The replacement is literal.
- Strings.Lower: `toLowerCase` is ASCII only. Other Unicode case mappings are not modelled.
- Release.Component: this is narrower than JavaScript `Number`. A digit string is read as its value,
  and the empty string reads as `0`. Any other text is `NaN`, including these, which `Number` reads
  as numbers:
  - whitespace around a component;
  - a sign (`-1`, `+1`);
  - hexadecimal, binary or octal prefixes (`0x`, `0b`, `0o`) and exponent notation;
  - `Infinity`.
- Release.Version: components are exact natural numbers, and `NatToDecimal` prints every digit.
  The script differs in two ways:
  - it computes with doubles, so a component above 2^53 is rounded. For example,
    `9007199254740993.0.0` with `minor` gives `9007199254740992.1.0`;
  - a component at or above 10^21 prints in exponent form: `String(1e21)` is `1e+21`.
- The release script's side effects are left out: the current date (a parameter here), reading
  `package.json`, writing the changelog, starting the editor, and `process.exit`.

## Findings

| source | as written | input that shows it | evidently intended | confidence | as-written member | corrected member |
|---|---|---|---|---|---|---|
| src/extension.ts:144 | `content.trim().split('\n')` turns an empty or missing destination into one empty line. The filter keeps it because it has no key, so the first text written is `\n` plus the key lines. The next sync trims the `\n` away, so the file changes on a second sync with unchanged sources (`Sync.SyncFreshDestination` shows this for the whole sync). | source `A=x`, format `${key}`, no destination file: first sync writes `\nA=a`, second writes `A=a` | An empty destination has no lines, so a new template starts with its first key line and repeated syncs do not change it | not executed | MergeLaws.EmptyDestinationDrift | MergeLaws.FreshDestinationStable |
