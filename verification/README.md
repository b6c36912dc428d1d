# copy-for-llm: the selection-to-document pipeline in Dafny

The copy-for-llm editor extension copies the files and folders selected in the
explorer to the clipboard as one text document for a language-model chat. Each
file appears as a label line followed by its text in a fenced block. A token
summary header can come first. This project models the pipeline behind the
`copySelectedFiles` command in `src/extension.ts` as pure functions over an
immutable file-system snapshot, and proves properties of it.

The pipeline has five steps, one module each (plus `Outcomes`, `Paths` and `Snapshot`):

- **Selection** (`selection.dfy`) covers three steps.
  - It gathers the raw selection: the multi-selection, else the clicked item, else the active document.
  - It expands a folder to its direct child files unless the folder is *shadowed*, meaning some other selected path lies below it.
  - It resolves the raw list into the ordered list of *targets*, the files to copy.
- **PathLabels** (`path_labels.dfy`) models `formatPath` (a basename, or a label relative to the workspace root) and the relative-path toggle.
- **Tokens** (`tokens.dfy`) models `countTokens`. The tokenizer is an opaque `Encoder`. Its fallback is the UTF-8 byte length divided by four, rounded up.
- **Assembly** (`assembly.dfy`) covers the rest of the document.
  - It reads each target and builds one record per readable target.
  - It totals the token counts.
  - It applies the summary policy (`auto`/`always`/`off`, strict threshold).
  - It renders the header and the fenced blocks, and flags totals above 200000.
- **CopyCommand** (`copy_command.dfy`) runs the whole command. It gives either the clipboard text, total, oversize flag and unreadable targets, or one of three terminal failures.

`scenarios.dfy` works through concrete selections over a small snapshot.

The file system is a `map<string, Node>`:
- A missing key is a failed `stat`.
- `File(None)` is a failed read.
- `Dir(None)` is a failed `readdir`.

The separator is `/`. Function-valued parameters stand in for host capabilities: the workspace-root lookup, the tokenizer and locale digit grouping. The relative-path preference and the summary settings are plain parameters.

The code has no deduplication step. It loops over the raw list, so a path selected twice is copied twice (`Selection.RepeatedFileIsRepeated`). Two things together still rule out repeated targets (`Selection.TargetsDistinct`):
- raw paths that are distinct;
- listings that name each entry once by a plain name.

This works because a file selected inside a folder shadows that folder.

The model departs from the code in one place: the shadowing test for a folder that ends in the separator. Only the file-system root `/` ends that way. The code asks whether another selected path starts with the folder plus a separator. For the root that prefix is `//`, which no path starts with, so the root is never shadowed. `path.join("/", name)` gives `/name`, so selecting `/` together with `/x.txt` copies `/x.txt` twice. The model's test uses the prefix that `path.join` actually puts before a child name: `/` for the root, and the folder plus a separator for every other folder. Off the root the two tests are the same (`Selection.ShadowTestsAgreeOffRoot`). The code's own test is kept as `Selection.ShadowedAsWritten` and `Selection.ExpandFolderAsWritten`; see "## Findings".

## Model

| member | source | states |
|---|---|---|
| Paths.Basename | src/extension.ts:18 | the basename is the longest separator-free suffix: it has no separator, is a suffix of the path, and is preceded by a separator whenever it is shorter than the path |
| Paths.DirPrefix | src/extension.ts:57 | the prefix `path.join` puts before a child name ends in a separator, starts with the folder, is the folder plus a separator for every folder not already ending in one, and is the folder itself for one that does (the root `/`) |
| Paths.Join | src/extension.ts:57 | a child path lies inside its folder and what follows the folder's prefix is exactly the entry name; no second separator follows a folder that ends in one, as `path.join("/", name)` gives `/name` |
| Paths.InsideIsBelowOffRoot | src/extension.ts:47 | for a folder not ending in the separator, lying inside it is exactly the code's prefix test `folder + sep` |
| Paths.BasenameOfJoin | src/extension.ts:57 | the basename of a child path built from a plain name is that name |
| Paths.JoinInjective | src/extension.ts:57 | child paths built from plain names determine both the folder's prefix and the name |
| PathLabels.RelativeTo | src/extension.ts:21 | the relative label of a path inside its root, appended to the root's prefix, gives back the path (for the root `/` too); the root itself gets the empty label |
| PathLabels.FormatPath | src/extension.ts:16-22 | relative mode off or no containing root gives the basename; otherwise the root's prefix followed by the label is the full path (empty label for the root itself) |
| PathLabels.BasenameLabelHasNoSeparator | src/extension.ts:17-18 | with relative mode off a label never contains a separator |
| PathLabels.RelativeLabelIsShorter | src/extension.ts:20-21 | a workspace-relative label is shorter than, so never equal to, the absolute path |
| PathLabels.RelativeLabelIsNotAbsolute | src/extension.ts:20-21 | a workspace-relative label of a path without doubled separators is empty or does not start with a separator |
| PathLabels.LabelOfChild | src/extension.ts:18 | with relative mode off, a file found by folder expansion is labelled with its directory-entry name |
| PathLabels.LabelBelowRoot | src/extension.ts:20-21 | a file inside its root is labelled with exactly the path after the root's prefix |
| PathLabels.Toggle | src/extension.ts:82 | the toggle always changes the preference |
| PathLabels.ToggleTwice | src/extension.ts:82 | toggling twice restores the preference |
| PathLabels.RelativeAfterParity | src/extension.ts:8 | starting from relative mode on, the mode is on exactly after an even number of toggles |
| Snapshot.ReadDir | src/extension.ts:54-55 | a listing is only ever obtained from a path whose stat found a directory |
| Snapshot.ReadFile | src/extension.ts:134 | contents are only ever obtained from a path whose stat found a file |
| Selection.Gather | src/extension.ts:96-103 | the raw selection is the non-empty multi-selection, else the clicked item, else the active document; it is empty exactly when all three are absent |
| Selection.SelectedSet | src/extension.ts:105 | the set holds exactly the raw paths |
| Selection.ShadowedAsWritten | src/extension.ts:46-48 | the code's shadowing test: another selected path starts with the folder plus a separator; at the root it never fires over ordinary paths (`RootNeverShadowedAsWritten`) |
| Selection.RootNeverShadowedAsWritten | src/extension.ts:46-48 | at a folder ending in the separator the code's test needs a selected path with two separators in a row, so it never fires when no selected path has one |
| Selection.Shadowed | src/extension.ts:46-48 | a folder is shadowed when another selected path lies inside it; pinned by `ShadowedByDescendantOnly` and `ShadowTestsAgreeOffRoot` |
| Selection.ShadowTestsAgreeOffRoot | src/extension.ts:46-48 | for every folder not ending in the separator, the model's shadowing test is exactly the code's |
| Selection.ShadowedByDescendantOnly | src/extension.ts:46-48 | a folder is shadowed iff some selected path strictly longer than it lies inside it; removing the folder itself from the selection changes nothing, and a folder selected alone is not shadowed |
| Selection.ChildFiles | src/extension.ts:54-57 | a path is in the expansion iff it joins the folder with the name of a regular-file entry of the listing; never longer than the listing |
| Selection.ChildFilesSplice | src/extension.ts:54-57 | expansion keeps listing order: a split listing expands to the concatenation of its parts' expansions |
| Selection.ExpandFolder | src/extension.ts:41-62 | every expanded path lies inside the folder; a path is expanded iff the folder is not shadowed, its listing reads, and the path is a regular-file entry joined to the folder |
| Selection.ExpandFolderAsWritten | src/extension.ts:41-62 | the code's expansion: nothing when the code's own shadowing test fires, otherwise every regular-file child of a readable folder; for every folder not ending in the separator it is the model's expansion |
| Selection.Contribution | src/extension.ts:109-117 | a file contributes exactly itself; an unknown path or one that is neither file nor folder contributes nothing; every contributed path is the raw path or lies inside it |
| Selection.Resolve | src/extension.ts:108-121 | the contributions in raw order; pinned by `ResolveMembers`, `ResolveSplice` and `ResolveTargets` |
| Selection.ResolveMembers | src/extension.ts:108-121 | a path is resolved iff it is in the contribution of some raw path |
| Selection.Targets | src/extension.ts:105-121 | no raw paths give no targets, and every target is a raw path or lies inside one |
| Selection.ResolveTargets | src/extension.ts:105-121 | the resolution loop computes exactly the targets of the raw selection |
| Selection.ResolveSplice | src/extension.ts:108-121 | targets keep raw order: each raw path's contribution is spliced in at its position |
| Selection.DroppedPathContributesNothing | src/extension.ts:109-120 | a raw path whose stat fails or finds neither file nor folder leaves the targets as if it were absent |
| Selection.FilesPassThrough | src/extension.ts:111-112 | a selection of files only resolves to itself, unchanged and in order |
| Selection.TargetOrigin | src/extension.ts:105-121 | a path is a target iff it is a selected file or is in the expansion of a selected folder |
| Selection.RepeatedFileIsRepeated | src/extension.ts:108-121 | a file selected twice is a target twice: there is no deduplication |
| Selection.ChildFilesDistinct | src/extension.ts:54-57 | a well-formed listing expands without repeats |
| Selection.ContributionDistinct | src/extension.ts:109-117 | one raw path never contributes the same target twice |
| Selection.ContributionsDisjoint | src/extension.ts:45-57 | two different selected paths contribute no common target, because a selected file below a folder shadows it |
| Selection.ResolveDistinct | src/extension.ts:108-121 | distinct selected paths over well-formed listings resolve without repeats |
| Selection.TargetsDistinct | src/extension.ts:105-121 | distinct raw paths over well-formed listings give distinct targets, the root folder included |
| Tokens.Utf8Length | src/extension.ts:73 | `Buffer.byteLength(text, "utf8")`; pinned by `Utf8LengthBounds`, `Utf8LengthAppend` and `AsciiUtf8Length` |
| Tokens.Utf8LengthBounds | src/extension.ts:73 | a text takes between one and four UTF-8 bytes per character |
| Tokens.Utf8LengthAppend | src/extension.ts:73 | UTF-8 length is additive over concatenation |
| Tokens.AsciiUtf8Length | src/extension.ts:73 | ASCII text takes one byte per character |
| Tokens.FallbackTokens | src/extension.ts:72-73 | the fallback n is the ceiling of bytes/4: 4n covers the byte length and 4n is below byte length + 4; empty text gives 0 |
| Tokens.FallbackBetweenQuarterAndOnePerChar | src/extension.ts:73 | the fallback lies between a quarter token and one token per character |
| Tokens.FallbackSubadditive | src/extension.ts:73 | estimating two texts apart never undercounts their concatenation |
| Tokens.CountTokens | src/extension.ts:68-75 | the tokenizer's count when it succeeds, otherwise the ceiling of bytes/4 |
| Tokens.EmptyTextCostsNothing | src/extension.ts:68-75 | empty text costs 0 tokens on the fallback path and on any tokenizer that counts nothing for it |
| Assembly.RecordOf | src/extension.ts:133-141 | a target yields no record iff its read fails; otherwise the record holds its label, the count of its text and the text |
| Assembly.Records | src/extension.ts:129-142 | at most one record per target, and every record is the label, count and text of some readable target |
| Assembly.Unreadable | src/extension.ts:138-141 | a path is reported iff it is a target whose read failed |
| Assembly.UnreadableSplice | src/extension.ts:132-141 | warnings keep target order: a split target list gives the concatenation of the parts' warnings |
| Assembly.UnreadableOfOne | src/extension.ts:133-141 | one target draws exactly one warning if its read fails, none otherwise |
| Assembly.RecordsSplice | src/extension.ts:132-142 | records keep target order: a split target list gives the concatenation of the parts' records |
| Assembly.RecordsOfOne | src/extension.ts:133-141 | one target gives no record if unreadable, else exactly its label, count and text |
| Assembly.RecordsAndFailuresPartition | src/extension.ts:132-142 | a target is reported unreadable iff its read fails, every readable target has a record with its text and label, and records plus warnings number the targets |
| Assembly.NoRecordsIffAllReadsFail | src/extension.ts:144-147 | there are no records exactly when every read fails |
| Assembly.ReadableTargetHasRecord | src/extension.ts:132-142 | every readable target has a record with its label, count and text |
| Assembly.TotalTokens | src/extension.ts:137 | the total is zero iff every record counts zero tokens; see also `TotalTokensSplice` and `RecordWithinTotal` |
| Assembly.TotalTokensSplice | src/extension.ts:137 | the total of concatenated record lists is the sum of their totals |
| Assembly.RecordWithinTotal | src/extension.ts:137 | no record counts more tokens than the total |
| Assembly.BuildRecords | src/extension.ts:129-142 | the read loop's records, running total and warnings are the records of the targets, the sum of their counts, and the unreadable targets |
| Assembly.WantSummary | src/extension.ts:156-158 | the summary decision; pinned by `SummaryByMode` and `SummaryMonotone` |
| Assembly.SummaryByMode | src/extension.ts:156-158 | off never summarises, always always does, auto does exactly when the total strictly exceeds the threshold (not at equality) |
| Assembly.SummaryMonotone | src/extension.ts:156-158 | a larger total never loses the summary |
| Assembly.Oversize | src/extension.ts:173 | the oversize test; `CopyCommand.Copy` states the flag is set iff the total exceeds 200000 |
| Assembly.SummaryLine | src/extension.ts:164 | one bullet: label, token count in locale grouping; placed by `HeaderListsRecord` |
| Assembly.Header | src/extension.ts:160-166 | title, one bullet per record in record order, blank line; pinned by `HeaderListsRecord` |
| Assembly.Block | src/extension.ts:168-170 | one file's label line and fenced text; pinned by `BodyVerbatim` |
| Assembly.Render | src/extension.ts:154-170 | optional header, then every block in record order; pinned by `BodyVerbatim`, `HeaderListsRecord` and `NoHeaderStartsWithFirstFile` |
| Assembly.ConcatMapSplice | src/extension.ts:162-170 | rendering per record concatenates in record order |
| Assembly.BodyVerbatim | src/extension.ts:168-170 | each file's text occurs verbatim at its block offset, preceded by its label line and opening fence and followed by the closing fence |
| Assembly.HeaderListsRecord | src/extension.ts:160-166 | with the summary wanted, the document opens with the title, and record k's bullet follows the bullets of the records before it |
| Assembly.NoHeaderStartsWithFirstFile | src/extension.ts:156-170 | without the summary, the document opens with the first file's label line |
| CopyCommand.Copy | src/extension.ts:96-179 | fails with no selection, nothing to copy, or all reads failed exactly in those situations; on success the oversize flag is set iff the total exceeds 200000, and records plus warnings account for every target |
| CopyCommand.CopySelectedFiles | src/extension.ts:94-180 | the handler's steps compute exactly the command's outcome |
| CopyCommand.CopiedHoldsEveryReadableTarget | src/extension.ts:132-170 | one readable target is enough for the command to succeed, and every readable target's text occurs verbatim in the copied text |
| CopyCommand.CopiedHeaderFollowsPolicy | src/extension.ts:149-170 | on success, the reported total is the sum of the record counts; when the policy wants the summary the text opens with the summary title, and otherwise with the first file's label line and opening fence |
| Scenarios.FolderAloneExpands | src/extension.ts:53-57 | a folder selected alone expands to its regular files in listing order, skipping its subfolder |
| Scenarios.ExplicitChildShadowsFolder | src/extension.ts:46-50 | selecting a folder and one of its files copies only that file |
| Scenarios.GrandchildShadowsFolder | src/extension.ts:46-50 | a selected grandchild suppresses all of the folder's own files |
| Scenarios.FolderThenInsideFile | src/extension.ts:46-50 | a folder followed by a file inside it resolves to that file alone |
| Scenarios.RootFolderAsWrittenRepeatsChild | src/extension.ts:46-57 | with the code's test, `/` is not shadowed by `/x.txt`, and the selection `/`, `/x.txt` yields `/x.txt` twice |
| Scenarios.RootFolderShadowedByChild | src/extension.ts:46-57 | with the model's test, the same selection yields `/x.txt` once |
| Scenarios.UnreadableOnlyFails | src/extension.ts:144-147 | a selection whose only target is unreadable ends in the all-reads-failed error |
| Scenarios.TwoFilesNoSummary | src/extension.ts:156-170 | summary off, files of 10 and 20 tokens: the exact two-block text with no header, total 30, no oversize flag |
| Scenarios.LargeSelectionGetsSummary | src/extension.ts:150-158 | under the default settings a 60000-token selection gets the header but no oversize flag |

## Left out

- Editor glue is not modelled. This covers command registration, the information, warning and error messages and their wording, and console logging. Warnings appear only as the `unreadable` list and the `oversize` flag.
- The clipboard write (`copyToClipboard`) is not modelled. It is asynchronous host I/O, and its failure only shows a message.
- Persistence of the toggle and reading of configuration are host I/O.
  - The preference, `summaryMode` and `summaryThresholdTokens` are parameters.
  - `DefaultPolicy` records the configuration defaults.
  - A threshold that is not an integer is not modelled.
  - `Assembly.Mode` has only the three documented `summaryMode` values. The setting can hold any string, and any other value (`"Always"`, say) matches neither comparison at src/extension.ts:156-157, so it acts as `Off`; the model's `Off` stands for all of them.
- The tokenizer (`encoding_for_model`/`get_encoding`) is a foreign library. It is the opaque `Encoder`, with `None` standing for a throw.
- `toLocaleString` digit grouping depends on the locale, so it is the opaque `grouping` parameter.
- The file system is one immutable snapshot. So the model leaves out:
  - files that change between the `stat`, `readdir` and read calls;
  - symbolic links;
  - the operating system's listing order (the snapshot's order stands in for it);
  - UTF-8 decoding of file bytes (file contents are already strings).
- Paths are plain strings with the POSIX separator. `Uri.fsPath` conversion, Windows drive letters and case-insensitive file systems are not modelled.
- Paths.Join: `path.join` normalisation of `..`, `.` and repeated separators is not modelled, and neither is joining onto an empty folder path. Listing entries are plain names and folder paths come from `Uri.fsPath`, so neither case arises.
- Paths.Basename: Node's stripping of trailing separators before taking the basename is not modelled. Targets never end in a separator.
- PathLabels.FormatPath: `path.relative` is modelled only for a path at or below its reported root. The `RootLookup` type holds the host's promise that the reported workspace folder contains the path.
- Tokens.FallbackTokens: `Math.ceil` on a floating-point quotient is taken as exact, which holds for byte lengths below 2^53.

## Findings

| source | as written | input that shows it | evidently intended | confidence | as-written member | corrected member |
|---|---|---|---|---|---|---|
| src/extension.ts:46-48 | a folder is shadowed when another selected path starts with the folder plus a separator | selecting the root `/` and `/x.txt`: no path starts with `//`, `path.join("/", "x.txt")` is `/x.txt`, so `/x.txt` is copied twice | a selected path inside the root shadows it, as it does for any other folder, so `/x.txt` is copied once | medium, not executed | Selection.ExpandFolderAsWritten, exhibited by Scenarios.RootFolderAsWrittenRepeatsChild | Selection.ExpandFolder, with Selection.TargetsDistinct and Scenarios.RootFolderShadowedByChild |
