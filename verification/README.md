# Batch splitter model

A Dafny model of the batching core of drive-backup-tool's `src/batchSplitter.js`.
Before an upload, the tool splits a local directory tree into numbered batch
directories, each holding at most `BATCH_SIZE` bytes of ordinary files. It has
five parts, one module each:

- **Filters** (`filters.dfy`): `shouldIgnore`, the normalisation of
  `ALLOWED_EXTENSIONS` and `hasAllowedExtension`. It also holds the visibility
  rule of `listDirectoryContents`.
- **Naming** (`naming.dfy`): `generateReadableName`, which turns a path below
  the input root into a cleaned `main_sub_identifier.ext` name.
- **Scanner** (`scanner.dfy`): `getAllFiles`, the recursive walk. It skips
  ignored entries and keeps files whose extension is allowed and whose `stat`
  succeeds. When renaming is on, it renames directories (after their contents)
  and files in place.
- **Grouping and packing** (`grouping.dfy`, `packer.dfy`): the body of
  `createBatches`. Files are grouped by their top-level folder in a plain
  object. The groups are taken in the object's property order, and each group
  is sorted by creation time. A single loop then assigns every file a batch
  `batch_NN` and a batch-local folder `<parent>_NN`.
- **Pipeline and manifest** (`batches.dfy`, `manifest.dfy`): `createBatches`
  end to end, with its refusal conditions and the output-directory listing.
  Also the manifest `saveBatch` would write.

The filesystem is an immutable tree (`Scanner.Entry`). Each node carries the
answers that `readdirSync`, `statSync` and `renameSync` would give, plus an
abstract creation-time key. Paths are sequences of segments below the input
root. `wrappers.dfy`, `strings.dfy`, `paths.dfy` and `constants.dfy` hold the
result type, ASCII string helpers, `path.extname`/`path.basename` for one
segment, and the `UNWANTED_FILES` list.

Where the code and its own comments disagree, the model follows the code:

- The comment at src/batchSplitter.js:464 puts a file larger than the batch
  size "in its own batch". The code opens a new batch for it without adding to
  that batch's load, so the small files after it join the batch
  (`Packer.SmallFileJoinsOversizedBatch`).
- The comments at src/batchSplitter.js:441 and 487 say `currentBatchSubfolders`
  tracks the folders of the current batch. An oversized file opens a batch
  without clearing that table, so a later file can reuse an earlier batch's
  suffix in the new batch (`Packer.StaleFolderTableAfterOversized`).
- The comment at src/constants.js:3 says the `thumbs.db` entry catches every
  capitalisation. The exact-name test at src/batchSplitter.js:176 is
  case-sensitive, so `Thumbs.db` is not ignored
  (`Filters.ThumbsDbMatchedCaseSensitively`).
- The comment at src/batchSplitter.js:161 takes one more character off "for
  the dot", but the extension already holds its dot. A truncated file name is
  therefore 99 characters long, not the 100 of `MAX_FILENAME_LENGTH`
  (src/batchSplitter.js:12) (`Naming.FileNameLayout`).
- The comment at src/batchSplitter.js:158 promises to truncate a long name
  while keeping the extension. When the extension alone has 100 or more
  characters, the name is just that extension, so the 100-character limit is
  exceeded (`Naming.GenerateReadableName`).

Other behaviours of the code that the model keeps:

- A file whose rename fails is still collected, under its old path but with
  the new name.
- `EmptyInputError` (src/batchSplitter.js:37-42) is declared but never thrown:
  every refusal goes through `process.exit`, modelled as an error result.
- The input-existence check comes after the scan of the missing directory,
  so a missing input is reported as "no valid files"
  (`Batches.MissingInputReportedAsEmpty`).
- Generated names are not stable for top-level files on a second run
  (`Naming.TopLevelFileNameIsNotStable`).
- Two files with the same name in same-named parent folders get the same
  destination, so one copy overwrites the other (`Packer.SameParentNameCollides`).
In one place the model follows what the code evidently means rather than
what it does: a `$` in the input root or in the name of a directory above a
renamed directory corrupts the recorded paths of the files below it. The
scanner models the intended literal path update, and `path_replace.dfy`
models the call as written; see "## Findings".

`BATCH_SIZE` is `parseInt` of an environment variable. It is modelled as
`Option<int>`, where `None` stands for NaN: every comparison with NaN is
false, so with NaN everything lands in batch 1.

## Model

| member | source | states |
|---|---|---|
| Filters.ShouldIgnoreCases | src/batchSplitter.js:174-191 | a name is ignored iff it is exactly `thumbs.db`, starts with a dot, or contains `.ds_store` once lower-cased (the other artefact names all start with a dot) |
| Filters.ThumbsDbMatchedCaseSensitively | src/batchSplitter.js:176-178 | `thumbs.db` is ignored but `Thumbs.db` is not, because the exact-name test is case-sensitive |
| Filters.NormaliseExtension | src/batchSplitter.js:16-19 | a normalised entry is `*` or lower-case with a leading dot; it is `*` iff the trimmed, lower-cased entry is `*`; it ends with the trimmed, lower-cased entry |
| Filters.AllowedExtensions | src/batchSplitter.js:15-21 | an unset or empty variable gives `["*"]`; otherwise one normalised entry per comma-separated piece, each `*` or a lower-case dotted extension |
| Filters.NormalisedEntryMatches | src/batchSplitter.js:16-19 | the normalised entry matches an extension exactly when the raw entry, trimmed and lower-cased, is `*`, the extension, or the extension without its dot |
| Filters.AllowedIffSomeEntryAdmits | src/batchSplitter.js:15-21 | both directions: `hasAllowedExtension` holds iff some comma-separated piece of the variable admits the file's lower-cased extension |
| Filters.ExtensionlessFileRejected | src/batchSplitter.js:49-62 | without a wildcard, a file with no extension is never allowed |
| Filters.HiddenFromListingIsIgnored | src/batchSplitter.js:362-369 | every name the output listing hides is one the scanner ignores; `a.DS_Store` shows the converse fails |
| Paths.DotSuffix | src/batchSplitter.js:55 | the suffix from the last dot, empty iff the name has no dot |
| Paths.Extname | src/batchSplitter.js:55 | `path.extname` of a segment is non-empty exactly when the name is not `..` and has a dot after its first character, and then it is the suffix from the last dot, a proper suffix of the name |
| Paths.ExtnameAfterLastDot | src/batchSplitter.js:55 | a name with text before its last dot has that dot and the rest as extension; a name whose only dot leads it has none |
| Paths.Stem | src/batchSplitter.js:133 | the stem followed by the extension is the name, and the stem is not empty when an extension exists |
| Paths.ExtnameOfStemWithoutDot | src/batchSplitter.js:133-134 | no dot follows the stem inside the extension |
| Paths.DotSuffixAfterLastDot | src/batchSplitter.js:55 | the extension is the dot that no other dot follows, plus the rest |
| Strings.Split | src/batchSplitter.js:16 | `split(',')` yields at least one piece, no piece holds the separator, and joining the pieces gives the input back |
| Strings.Trim | src/batchSplitter.js:17 | the result is a slice of the input with only whitespace before and after it, and it neither starts nor ends with whitespace |
| Strings.TwoDigits | src/batchSplitter.js:468 | `padStart(2, '0')` of a numeral: at least two digits, exactly two below 100, no leading zero from 10 on, and it reads back as the number |
| Strings.TwoDigitsInjective | src/batchSplitter.js:468 | different numbers never render alike |
| Naming.CleanCategory | src/batchSplitter.js:137-143 | a cleaned category uses only `[a-z0-9-]`, keeps its length when it has no hyphen, and is empty only for an empty category |
| Naming.CleanKeepsAlnumContent | src/batchSplitter.js:137-143 | cleaning keeps every letter and digit, lower-cased and in order |
| Naming.CleanIsIdempotent | src/batchSplitter.js:137-143 | cleaning a cleaned category changes nothing |
| Naming.Identifier | src/batchSplitter.js:151-153 | the identifier is a prefix of the stem: the stem itself when it does not start with a letter, else the maximal letters-then-digits run |
| Naming.GenerateReadableName | src/batchSplitter.js:116-167 | an artefact name is returned unchanged; a directory name has at most 100 characters over `[a-z0-9_-]`; a file name ends with the lower-cased extension and has at most 100 characters unless the extension alone is longer |
| Naming.DirectoryNameLayout | src/batchSplitter.js:145-148 | a directory name is `main_sub`, or `main` alone when the cleaned subcategory is empty, cut to its first 100 characters |
| Naming.FileNameLayout | src/batchSplitter.js:150-166 | a file name is a prefix of `main_sub_identifier` followed by the extension; an uncut name has at most 100 characters, and a cut one exactly 99 when the extension is shorter than 100 |
| Naming.TopLevelFilePrefix | src/batchSplitter.js:127-156 | a top-level file's main category is its own name, giving `<clean name>__<identifier>` |
| Naming.TopLevelDirectoryNameIsStable | src/batchSplitter.js:145-148 | renaming a top-level directory a second time keeps its name |
| Naming.TopLevelFileNameIsNotStable | src/batchSplitter.js:150-156 | renaming file `ab` gives `ab__ab`, and renaming that again gives `ab--ab__ab` |
| Scanner.ScanEntries | src/batchSplitter.js:199-284 | every collected file lies strictly below the directory being scanned |
| Scanner.Scan | src/batchSplitter.js:203-208 | an unreadable input root yields no files |
| Scanner.ScanIsRetainedWalk | src/batchSplitter.js:199-284 | the scan equals the reference pre-order walk of all files, filtered to retained chains (nothing ignored on the way, allowed extension, `stat` succeeds) and described with every renamed segment from this depth down |
| Scanner.ScanEntryIsRetainedWalk | src/batchSplitter.js:221-281 | the same for one entry of the loop |
| Scanner.ScanDirIsRetainedWalk | src/batchSplitter.js:227-247 | the same for a directory: its files at its position, and its renamed name in their paths when its rename succeeds |
| Scanner.WalkOfIgnoredRetainsNothing | src/batchSplitter.js:211 | nothing below an ignored entry is retained |
| Scanner.WalkOfFile | src/batchSplitter.js:251-270 | a file is retained iff its extension is allowed and its `stat` succeeds |
| Scanner.LastSegmentRenamed | src/batchSplitter.js:257-277 | a file's last segment is its new name only when renaming is on, the name changes and the rename succeeds; otherwise its old name |
| Scanner.RenameDirectoryMatches | src/batchSplitter.js:231-244 | replacing the directory's segment in every descendant path equals describing the descendants with that segment renamed |
| Scanner.ScanMatchesReference | src/batchSplitter.js:199-284 | the main theorem at the input root, for the real name generator |
| Scanner.RenamingKeepsFiles | src/batchSplitter.js:231-279 | with renaming on or off, the scan finds the same number of files with the same sizes, creation keys and depths |
| Scanner.ScanWithoutRenaming | src/batchSplitter.js:257-259 | with renaming off, every file keeps its path and is copied under its own name |
| PathReplace.FindFrom | src/batchSplitter.js:242 | the position `replace` finds is an occurrence of the pattern, and no earlier position holds one; none is found only when no position holds one |
| PathReplace.NoDollarStandsForItself | src/batchSplitter.js:242 | a replacement text without `$` expands to itself |
| PathReplace.ReplaceIsLiteralWithoutDollar | src/batchSplitter.js:242 | without `$` in the replacement, `replace` is the literal first-occurrence replacement |
| PathReplace.LiteralRenameSwapsSegment | src/batchSplitter.js:234-242 | replacing a directory's path literally by its new path, in a path below it, swaps exactly that directory's segment |
| PathReplace.RenameAsWrittenSwapsSegment | src/batchSplitter.js:234-242 | `replace` as written swaps exactly that segment when the root, the names above the directory and the new name hold no `$` |
| PathReplace.GeneratedDirNameHasNoDollar | src/batchSplitter.js:145-148 | a generated directory name holds no `$` |
| PathReplace.ReplaceSegmentIsLiteralReplace | src/batchSplitter.js:241-243 | the scanner's segment swap is, on every path below the renamed directory, the literal replacement of its path by its new path |
| PathReplace.ReplaceSegmentAsWritten | src/batchSplitter.js:233-243 | the source's `replace` gives the same paths as the segment swap when the root and the names above the renamed directory hold no `$` |
| PathReplace.DollarInParentBreaksRename | src/batchSplitter.js:242 | renaming `A$&/B` to `a--_b` below a root turns a file recorded as `A$&/B/p.jpg` into `<root>/A<root>/A$&/B/a--_b/p.jpg`, not the literal `<root>/A$&/a--_b/p.jpg` |
| PathReplace.NameOfDollarDirectory | src/batchSplitter.js:137-148 | the name generated for the directory `A$&/B` is `a--_b` |
| Grouping.GroupByIsFilter | src/batchSplitter.js:427-434 | the grouping object has one property per distinct first-segment key (`root` at the top level), created in first-occurrence order, holding exactly that key's files in scan order |
| Grouping.AddKeepsGroups | src/batchSplitter.js:432-433 | a push creates the key's property, last, only when it is new, extends that key's files by the file, and leaves other keys alone |
| Grouping.FirstSeenIsDistinct | src/batchSplitter.js:432 | no property is created twice |
| Grouping.PropertyOrderIsObjectOrder | src/batchSplitter.js:445 | `Object.values` order (section 10.1.11.1 of ECMA-262) is a permutation of the keys: array-index keys first in ascending numeric order, then the other keys in creation order |
| Grouping.NumericFolderComesFirst | src/batchSplitter.js:445 | a top-level folder `2023` is offered before an earlier-created folder `photos` |
| Grouping.SortByCreation | src/batchSplitter.js:446-450 | the sorted group is a permutation of the group |
| Grouping.SortIsStable | src/batchSplitter.js:446-450 | the sort orders by creation key and keeps files with equal keys in their original order |
| Grouping.OfferingIsByKeys | src/batchSplitter.js:427-451 | the flattened offering is each distinct key's files, sorted, with the keys in property order |
| Grouping.OfferingByKey | src/batchSplitter.js:445-451 | the files of one key are offered as the stable creation-order sort of that key's scanned files |
| Grouping.OfferingIsPermutation | src/batchSplitter.js:427-451 | the offering is a permutation of the scan: every scanned file is offered exactly once |
| Grouping.OfferingSortedWithinKey | src/batchSplitter.js:446-450 | within each key the offering is ordered by creation time |
| Packer.RunInvariant | src/batchSplitter.js:436-500 | after any prefix of the loop: one placement per file in order, with its naming key and size class; batches numbered without gaps; `batchIndex` is the last batch; `currentBatchSize` is the load of that batch's normal files; `subfolderIndices` holds exactly the folders that drew a suffix, each with its number of draws; every entry of the current batch's folder table was drawn by an earlier normal copy of that folder after which no normal file opened a batch, and every normal file after which no normal file opened a batch is recorded there with its suffix; no batch's normal load exceeds a numeric limit |
| Packer.EveryFilePlacedOnce | src/batchSplitter.js:456-500 | the loop places every offered file exactly once, in order, and places nothing else |
| Packer.NewBatchIff | src/batchSplitter.js:464-483 | the first file opens batch 1; a later file opens the next batch exactly when it is larger than the batch size or would push the current batch's normal load past it, and otherwise joins that batch (a load equal to the size does not split) |
| Packer.ExactFitStaysTogether | src/batchSplitter.js:480 | 600 and 400 bytes under a limit of 1000 share batch 1 and its folder |
| Packer.TwoFilesOverflow | src/batchSplitter.js:480-493 | 600 then 500 bytes from folder `a` under a limit of 1000 give batches 1 and 2 and a count of 2, and the second copy draws the fresh suffix `a_02` because opening batch 2 cleared the folder table |
| Packer.BatchLoadBounded | src/batchSplitter.js:480-498 | with a numeric batch size, the normal files of every batch fit within it |
| Packer.BatchesAreOneToCount | src/batchSplitter.js:436-502 | the reported count is the last placement's batch, zero only without files, and the batches receiving files are exactly 1 to the count |
| Packer.OversizedOpensFreshBatch | src/batchSplitter.js:465-468 | a file larger than the batch size is placed in a batch later than every earlier file's |
| Packer.SmallFileJoinsOversizedBatch | src/batchSplitter.js:465-477 | after a 5000-byte file, a 10-byte file joins its batch and draws the next suffix |
| Packer.StaleFolderTableAfterOversized | src/batchSplitter.js:465-493 | `x` 600, `y` 5000, `x` 100 under a limit of 1000: the third file reuses `x_01` in `batch_02` without drawing a suffix |
| Packer.FreshSuffixExceedsEarlier | src/batchSplitter.js:465-493 | an oversized file always draws a suffix, and so does a normal file that opens a batch (the first file, or one whose batch differs from the previous file's), since the opening clears the folder table; a drawn suffix is one more than the number drawn before for that folder, and larger than every earlier copy's suffix for it |
| Packer.ReusedSuffixWasDrawnBefore | src/batchSplitter.js:479-493 | a copy that draws no suffix is a normal file reusing the suffix an earlier normal copy of the same folder drew, with no normal file opening a batch (and so clearing the folder table) after that copy up to this one |
| Packer.SharedUntilCleared | src/batchSplitter.js:479-494 | two normal files with the same parent share one folder suffix when no normal file after the first, up to the second, opened a batch, even across the batches oversized files open |
| Packer.SameBatchSameFolder | src/batchSplitter.js:487-494 | two normal files of one batch with the same parent share one folder suffix |
| Packer.NaNBatchSizeMakesOneBatch | src/batchSplitter.js:465-485 | with a NaN batch size every file lands in batch 1 |
| Packer.SameParentNameCollides | src/batchSplitter.js:462-497 | `a/x/p.jpg` and `b/x/p.jpg` get the same destination `batch_01/x_01/p.jpg` |
| Packer.BatchDirNameInjective | src/batchSplitter.js:466-483 | different batch numbers give different `batch_NN` names |
| Packer.SubfolderDirNameInjective | src/batchSplitter.js:472-494 | a `<parent>_NN` name determines both the parent and the suffix |
| Manifest.SaveBatchManifest | src/batchSplitter.js:528-536 | the manifest counts every file, lists each file's relative path and size in order, and its `reduce` total equals the sum of the sizes and the sum of the entries' sizes |
| Manifest.ReduceIsTotal | src/batchSplitter.js:531 | the left fold from an accumulator adds the accumulator to the sum of the sizes |
| Manifest.TotalSizeConcat | src/batchSplitter.js:531 | the total of two runs of files is the sum of their totals |
| Manifest.EachSizeWithinTotal | src/batchSplitter.js:531 | no file's size exceeds the total |
| Manifest.ManifestAdditive | src/batchSplitter.js:528-536 | the manifest of two runs together counts and totals both |
| Batches.ConfigAdmits | src/batchSplitter.js:49-62 | with the configured list, `hasAllowedExtension` holds iff `ALLOWED_EXTENSIONS` is unset or empty, or some comma-separated piece of it, trimmed and lower-cased, is `*`, the file's lower-cased extension, or that extension without its dot |
| Batches.Listing | src/batchSplitter.js:362-369 | one `- ` line per visible entry at most, empty iff no entry is visible |
| Batches.ListingConcat | src/batchSplitter.js:362-369 | the listing of two runs of entries is the two listings in order |
| Batches.ListingOfOne | src/batchSplitter.js:362-369 | a visible entry gives `- name`, with `/` for a directory; a hidden one gives nothing |
| Batches.ListDirectoryContents | src/batchSplitter.js:359-372 | an unreadable directory lists nothing |
| Batches.CreateBatches | src/batchSplitter.js:380-504 | the run refuses with "no valid files" iff the scan is empty; otherwise with the listing iff the output directory exists and lists something; otherwise with "input missing" iff the input is absent |
| Batches.CreateBatchesPlacesEveryFile | src/batchSplitter.js:426-502 | a successful run places every scanned file exactly once in offering order, numbers its batches 1 to the reported count, and keeps every batch's normal load within a numeric batch size |
| Batches.MissingInputReportedAsEmpty | src/batchSplitter.js:396-421 | a missing input directory is reported as having no valid files |
| Batches.HiddenLeftoversIgnored | src/batchSplitter.js:401-409 | an output directory holding only hidden entries and artefacts does not stop the run |

## Left out

- Filesystem effects are not modelled: `ensureDirSync`, `copySync`, `renameSync` on disk, `removeSync` and `writeJsonSync`. Only the placement sequence is conserved; collisions and overwrites on disk are not.
- `statSync` inside the sort comparator is replaced by the `created` key collected at scan time. The comparator's difference of `birthtimeMs` floats is treated as an integer comparison.
- `showProgress`, which uses floating-point `Math.round`, is left out, as are ANSI colours, `console` output and the debug log in `hasAllowedExtension`.
- `process.exit` in `showUserErrorAndExit` becomes an error result.
- `readline`, `askQuestion`, `isDirectoryEmpty` and `removeDirectory` are left out; none of them is called by the batching core.
- `parseInt` itself is not modelled: `BATCH_SIZE` is given as a number or NaN.
- The `index` argument of `generateReadableName` is not modelled; it is never read.
- Object keys that clash with `Object.prototype` (`constructor`, `__proto__`) are left out. In the source they make the truthiness tests misbehave (a `TypeError` or NaN).
- Unicode and UTF-16 behaviour of the regexes and `toLowerCase` is left out: names are ASCII.
- `path.join`, `path.relative` and `path.sep` are abstracted: paths are segment sequences below the input root.
- src/index.js, src/driveUploader.js and src/sheetLogger.js are not part of this model: they handle orchestration, prompts and network calls.
- Scanner.RenameDirectoryMatches: the path update it matches is the literal segment swap. It agrees with the source's `replace` only when the input root and the names of the directories above the renamed one hold no `$` (`PathReplace.ReplaceSegmentAsWritten`); see "## Findings" for what happens otherwise.
- Scanner.ScanDirIsRetainedWalk: the same restriction. The renamed name appears in the descendants' paths as stated only when the input root and the names above the directory hold no `$`.
- Grouping.WithKey: its contract states only that every selected file has the key, not that it comes from the input; membership follows from `Grouping.WithKeyCount`.

## Findings

| source | as written | input that shows it | evidently intended | confidence | as-written member | corrected member |
|---|---|---|---|---|---|---|
| src/batchSplitter.js:242 | `file.path.replace(fullPath, newDirPath)` passes the new path as a replacement string, so its `$&`, `$$`, `` $` `` and `$'` sequences are expanded (GetSubstitution, section 22.1.3.19.1 of ECMA-262). The `$` can only come from the input root or an unrenamed directory above, since generated names hold none | with renaming on, `input_files/A$&/B/p.jpg`: the file is renamed first, inside the recursion, to `a--_b_p.jpg`; renaming `B` to `a--_b` then turns the recorded path into `input_files/Ainput_files/A$&/B/a--_b/a--_b_p.jpg` (`.../a--_b/p.jpg` when the file's own rename fails), which names no file, and renaming `A$&` afterwards does not repair it | the literal prefix replacement, giving `input_files/A$&/a--_b/a--_b_p.jpg` | high; not executed | PathReplace.DollarInParentBreaksRename | PathReplace.ReplaceSegmentIsLiteralReplace |
