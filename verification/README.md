# Sourcegraph language inventory, Travis-Go check and permissions store — a Dafny model

This project models four pieces of the Sourcegraph repository as pure Dafny
functions over immutable data, and proves what they compute.

* **The Travis-Go check** (`extensions/enterprise/check-search/src/travisGo.ts`).
  It flags every `.travis.yml` file that has a line starting with `go:` or
  `language: go`, placing one warning on the first such line. It looks at no
  version number when it flags: a file already listing `"1.13.x"` is flagged
  too. Its fix edit adds a `"1.13.x"` version entry unless the file already
  mentions that version. It also aggregates a "fix in all repositories"
  action and assembles the code actions offered for a diagnostic.
  * A document is its text, split into lines the way `text.split('\n')`
    splits it.
  * The two `^`-anchored regular expressions become line-prefix patterns.
  * A workspace edit is the sequence of its insertions. Its `textEdits()`
    count is the number of distinct files it touches.
  * The diagnostics store and the document opener are parameters.
  (module `TravisGo`, with text helpers in `Strings`)
* **The language inventory** (`cmd/frontend/internal/inventory`).
  * `detect` and `GetLanguageByFilename` classify one file. The enry library
    is a record of uninterpreted functions, and the file reader is an
    optional function.
  * `getLang` is modelled on its name and size paths.
  * `Context.Tree` folds per-language byte totals over an inductive directory
    tree, with a get/set cache.
  * `Context.file` and `Context.Files` do the same for a flat file list.
  (modules `Inventory`, `InventoryTree`, `InventoryFiles`)
* **The search language statistics** (`cmd/frontend/graphqlbackend/search_results_stats_languages.go`).
  Only the pure tail is modelled:
  * the size given to a file match and to a commit-diff file;
  * `sawRepo`;
  * the division of repository inventories by 31;
  * the merge by language name;
  * the descending sort;
  * `typeToString`.
  (module `LanguageStats`)
* **The permissions store** (`enterprise/cmd/frontend/internal/authz/store.go`).
  The three tables (user, repository and pending permissions) are maps from
  their unique keys to rows, and a row is an ID-set column plus an update
  time. A row's column is empty, a decodable set, or bytes that do not
  decode. Every store operation is a function from the tables to new tables
  or an error. The clock readings are parameters, one per call of
  `s.clock()`. (module `AuthzStore`)

The operations are paired with a reference definition or an inverse, and a
lemma or a contract connects the two. Examples:
* `Tree` and `Files` against the sum of the sizes of the detected files;
* the corrected merge against the per-language sums, and the merge as
  written against the first `Lang` seen under each name;
* the adjustment as written against the corrected division by 31;
* the sort against a permutation;
* the fix against its own re-application, and the fix-all edit against the
  single-file fixes of its diagnostics laid end to end;
* `SetRepoPermissions` against the per-user grants and revocations it must
  make.

Where the code does not do what its comments or its evident purpose say,
the as-written behaviour is modelled alongside a corrected one (see
"## Findings").

The `Context` type and the `sum` helper used by `tree.go` and `files.go`
(`cmd/frontend/internal/inventory/context.go`) are not part of this model.
`Context` is represented by its two cache hooks, the reader and the
(recursive) directory listing. `sum` is represented by an association list
that keeps each language once.

## Model

| member | source | states |
|---|---|---|
| TravisGo.MatchLine | extensions/enterprise/check-search/src/travisGo.ts:188-189 | `exec` on an anchored alternation finds no match only when no alternative is a prefix of the line; a match has the length of an alternative that is a prefix |
| TravisGo.MatchLineIsFirstPrefix | extensions/enterprise/check-search/src/travisGo.ts:187-189 | An anchored alternation matches a line iff one alternative is a prefix of it; the match length is that of the first such alternative |
| TravisGo.DetectorMatchesFlaggedLines | extensions/enterprise/check-search/src/travisGo.ts:81 | `/(^go:)\|(^language: go)/` matches exactly the lines starting with `go:` (match ends at column 3) or `language: go` (column 12) |
| TravisGo.GoKeyMatchesGoLines | extensions/enterprise/check-search/src/travisGo.ts:149 | `/^go:/` matches a line iff it starts with `go:`, ending at column 3 |
| TravisGo.RangesFrom | extensions/enterprise/check-search/src/travisGo.ts:187-193 | Every range returned for lines i.. lies on one matching line, from column 0 to the match's end; ranges are in strictly ascending line order |
| TravisGo.RangesFromCoversMatches | extensions/enterprise/check-search/src/travisGo.ts:187-193 | Every matching line at or after i gets a range |
| TravisGo.FindMatchRanges | extensions/enterprise/check-search/src/travisGo.ts:184-195 | At most one range per line, ascending by line, each spanning the match on its line, and one for every line that matches |
| TravisGo.FirstRangeIsFirstMatch | extensions/enterprise/check-search/src/travisGo.ts:184-195 | The first range is on the first matching line |
| TravisGo.DiagnosticsFor | extensions/enterprise/check-search/src/travisGo.ts:78-93 | A file gets at most one diagnostic, exactly when some line is flagged; it sits on the first flagged line, spans columns 0..3 or 0..12, with code `check-search.travis-go`, Warning severity and the fixed message |
| TravisGo.FixTextsMentionTargetVersion | extensions/enterprise/check-search/src/travisGo.ts:148-156 | Both inserted texts contain `1.13.x` |
| TravisGo.VersionEntriesAt | extensions/enterprise/check-search/src/travisGo.ts:151-153 | One version-entry insertion per range, at the range's end, in range order |
| TravisGo.FixInsertions | extensions/enterprise/check-search/src/travisGo.ts:149-156 | The fix inserts at least one text, into the document's own file, and only the version entry or the version block |
| TravisGo.ComputeFixEdit | extensions/enterprise/check-search/src/travisGo.ts:143-159 | The given edit is kept as a prefix; nothing is added when the text already contains `1.13.x`, something otherwise, and only fix texts for this document |
| TravisGo.GoKeyRanges | extensions/enterprise/check-search/src/travisGo.ts:149 | The `go:` ranges end at column 3 of `go:` lines and cover every such line |
| TravisGo.FixInsertionsFollowGoKeys | extensions/enterprise/check-search/src/travisGo.ts:150-153 | With a `go:` line present, one version entry is inserted at column 3 of every `go:` line, in ascending line order, and nowhere else |
| TravisGo.FixInsertsAfterEveryGoKey | extensions/enterprise/check-search/src/travisGo.ts:148-153 | Without `1.13.x` in the text and with `go:` lines, the insertions appended to the edit are exactly one version entry after each `go:` line |
| TravisGo.FixAppendsBlockWithoutGoKey | extensions/enterprise/check-search/src/travisGo.ts:154-156 | Without `1.13.x` and without a `go:` line, exactly one insertion, the `go:` block, is appended at the end of the document |
| TravisGo.ApplyingMarkedInsertionsAddsMarker | extensions/enterprise/check-search/src/travisGo.ts:148-156 | Applying a non-empty set of fix insertions yields a text containing `1.13.x` |
| TravisGo.FixIsIdempotent | extensions/enterprise/check-search/src/travisGo.ts:143-159 | Applying the fix's insertions and computing the fix again on the new text adds nothing to any edit |
| TravisGo.IsTravisGoDiagnostic | extensions/enterprise/check-search/src/travisGo.ts:139-141 | Numeric and missing codes never match; a string code matches exactly when it is the check's code |
| TravisGo.TravisGoOnly | extensions/enterprise/check-search/src/travisGo.ts:168 | Filtering never lengthens the list |
| TravisGo.TravisGoOnlyMembers | extensions/enterprise/check-search/src/travisGo.ts:139-141 | A diagnostic survives the filter iff it was in the list and its code is exactly the check's string code |
| TravisGo.TravisGoOnlyEmpty | extensions/enterprise/check-search/src/travisGo.ts:169-171 | The filtered list is non-empty iff some diagnostic has the check's code |
| TravisGo.TravisGoEntries | extensions/enterprise/check-search/src/travisGo.ts:165-173 | Files left without the check's diagnostics are dropped |
| TravisGo.TravisGoOnlyDistributes | extensions/enterprise/check-search/src/travisGo.ts:168 | Filtering commutes with concatenation |
| TravisGo.TravisGoEntriesKeepStoreOrder | extensions/enterprise/check-search/src/travisGo.ts:165-181 | The fix-all diagnostics are the store's travis-go diagnostics, flattened in store order |
| TravisGo.EditedFilesAppend | extensions/enterprise/check-search/src/travisGo.ts:152 | Appending insertions for one file adds that file to the edited files, if anything was appended |
| TravisGo.FixFile | extensions/enterprise/check-search/src/travisGo.ts:176-180 | Fixing one file's diagnostics appends to the shared edit exactly the single-file fixes of those diagnostics, in order, and adds the file to the edited files iff it has a diagnostic and lacks `1.13.x` |
| TravisGo.FixEntries | extensions/enterprise/check-search/src/travisGo.ts:175-180 | The shared edit grows by exactly the single-file fixes of every diagnostic of every file, file by file and diagnostic by diagnostic |
| TravisGo.FixEntriesTouchesFilesNeedingFix | extensions/enterprise/check-search/src/travisGo.ts:175-180 | The files the shared edit touches are those of the input plus every listed file that has diagnostics and lacks `1.13.x` |
| TravisGo.ComputeFixAllAction | extensions/enterprise/check-search/src/travisGo.ts:161-182 | The action's diagnostics are the store's travis-go diagnostics in order; its edit is the single-file fixes of those diagnostics laid end to end, each file read once, and touches exactly the files that need a fix among those with such diagnostics |
| TravisGo.TravisGoEntriesNeedFixExactlyFlagged | extensions/enterprise/check-search/src/travisGo.ts:165-173 | The filtered entries needing a fix are exactly the flagged files of the store |
| TravisGo.FlaggedFilesMembers | extensions/enterprise/check-search/src/travisGo.ts:165-181 | A file is flagged iff some store entry for it carries a travis-go diagnostic and its text lacks `1.13.x` |
| TravisGo.FixAllTouchesFlaggedFiles | extensions/enterprise/check-search/src/travisGo.ts:161-182 | The fix-all edit touches a file iff the store has a travis-go diagnostic for it and its text lacks `1.13.x` |
| TravisGo.FirstTravisGo | extensions/enterprise/check-search/src/travisGo.ts:105 | `find` returns nothing iff no context diagnostic has the check's code, and otherwise the first one that does |
| TravisGo.Defined | extensions/enterprise/check-search/src/travisGo.ts:134 | Dropping absent actions never lengthens the list |
| TravisGo.DefinedDistributes | extensions/enterprise/check-search/src/travisGo.ts:134 | Dropping absent actions commutes with concatenation |
| TravisGo.FixAllCandidate | extensions/enterprise/check-search/src/travisGo.ts:118-123 | The fix-all action is offered iff its edit touches more than one file, titled with that count and carrying the fix-all edit and diagnostics |
| TravisGo.ProvideCodeActions | extensions/enterprise/check-search/src/travisGo.ts:104-108 | No action is offered iff the context has no travis-go diagnostic |
| TravisGo.DefinedCandidates | extensions/enterprise/check-search/src/travisGo.ts:112-134 | Of the three candidates, only an absent fix-all is dropped |
| TravisGo.CodeActionsInOrder | extensions/enterprise/check-search/src/travisGo.ts:104-135 | With a travis-go diagnostic the actions are: the single fix for the first such diagnostic, the fix-all titled "Fix in all N repositories" only when its edit touches N > 1 files, the docs link, then the other actions that are present |
| Strings.SplitLines | extensions/enterprise/check-search/src/travisGo.ts:185 | `split('\n')` always yields at least one line |
| Strings.SplitLinesCount | extensions/enterprise/check-search/src/travisGo.ts:185 | The number of lines is one more than the number of line feeds |
| Strings.SplitLinesHaveNoLineFeed | extensions/enterprise/check-search/src/travisGo.ts:185 | No line contains a line feed |
| Strings.SplitLinesRoundTrip | extensions/enterprise/check-search/src/travisGo.ts:185 | Joining the lines with line feeds gives back the text |
| Strings.CountChar | cmd/frontend/graphqlbackend/search_results_stats_languages.go:63 | `strings.Count` is at most the length, and zero iff the character does not occur |
| Strings.NatToStringRoundTrip | extensions/enterprise/check-search/src/travisGo.ts:120 | The decimal rendering of the count in the fix-all title reads back as the count |
| Inventory.Ext | cmd/frontend/internal/inventory/inventory.go:112 | `filepath.Ext` is empty or a dot-led suffix of the name without a slash and without a further dot; it is empty only when every dot of the path is followed by a slash |
| Inventory.GetLanguageByFilename | cmd/frontend/internal/inventory/inventory.go:110-116 | The safe flag is enry's; the language differs from enry's guess iff the extension is `.md` and enry said "GCC Machine Description", and then it is "Markdown" |
| Inventory.Detect | cmd/frontend/internal/inventory/inventory.go:41-61 | Skipped files give ""; a safe guess or a missing reader gives the filename guess; otherwise the first 16 KiB are read and the content guess returned; a read error is returned only on that path |
| Inventory.SkippedFileIgnoresNameAndContent | cmd/frontend/internal/inventory/inventory.go:46-48 | A non-regular or vendored file is classified "" whatever the filename table and reader |
| Inventory.SafeGuessIgnoresReader | cmd/frontend/internal/inventory/inventory.go:52-53 | When the filename guess is safe the reader is never consulted: any two readers give the same answer |
| Inventory.GetLang | cmd/frontend/internal/inventory/inventory.go:63-106 | Skipped files give the zero `Lang`; with no reader only the name is set; with a reader the bytes are the file size and the lines the reader's count; errors come only from the content read or the line scan |
| Inventory.AddBytes | cmd/frontend/internal/inventory/tree.go:39 | Adding n bytes to a language raises its total by n, leaves the others, adds its name, and keeps names unique |
| Inventory.AddAll | cmd/frontend/internal/inventory/tree.go:47-49 | Adding an inventory raises every language's total by its total there and keeps names unique |
| Inventory.Cache.Put | cmd/frontend/internal/inventory/tree.go:18-24 | Storing writes the key only when the set hook exists, keeps every other entry and both hooks |
| InventoryTree.Tree | cmd/frontend/internal/inventory/tree.go:11-56 | A cache hit is returned unchanged without reading; an unreadable directory returns the reader's error; a success is stored when the set hook exists; an error never stores this directory; no larger entry is written |
| InventoryTree.Walk | cmd/frontend/internal/inventory/tree.go:31-54 | The loop writes cache entries only for entries below the directory |
| InventoryTree.TreeConserves | cmd/frontend/internal/inventory/tree.go:26-55 | With a coherent cache, `Tree` succeeds iff nothing below fails, each language's total is the size of the regular files detected as it, names are unique, and the cache stays coherent |
| InventoryTree.WalkConserves | cmd/frontend/internal/inventory/tree.go:31-54 | The entry loop adds, per language, the detected bytes of the entries to the accumulator, and fails iff some entry fails |
| InventoryTree.TreeConservesWithoutCache | cmd/frontend/internal/inventory/tree.go:30-55 | Without cache lookups, totals are the detected bytes of the subtree whatever the cache holds |
| InventoryFiles.File | cmd/frontend/internal/inventory/files.go:13-42 | A hit returns the cached inventory; a detection error is returned wrapped and not stored; otherwise the empty inventory when no language is detected and else exactly the detected language with the file's size and no lines, which is stored |
| InventoryFiles.Files | cmd/frontend/internal/inventory/files.go:46-58 | `Files` never returns an error |
| InventoryFiles.FilesFrom | cmd/frontend/internal/inventory/files.go:48-57 | The loop of `Files` never returns an error, whatever the files |
| InventoryFiles.FilesSumsOrSwallows | cmd/frontend/internal/inventory/files.go:46-58 | With a coherent cache, a failing file makes `Files` return the empty inventory; otherwise each language's total is the sum of the sizes of the files detected as it |
| InventoryFiles.FilesFromSumsOrSwallows | cmd/frontend/internal/inventory/files.go:48-56 | The loop from any accumulator: empty on a failure, else accumulator plus detected bytes |
| LanguageStats.FileMatchSize | cmd/frontend/graphqlbackend/search_results_stats_languages.go:55-64 | The size is the number of line matches when non-zero, else the number of line feeds in the content; reading the content fails only on that path |
| LanguageStats.DiffFileSize | cmd/frontend/graphqlbackend/search_results_stats_languages.go:104-111 | The size is zero iff every hunk keeps its line count, at least each hunk's absolute change, and exactly that change for a single hunk |
| LanguageStats.DiffFileSizeAppend | cmd/frontend/graphqlbackend/search_results_stats_languages.go:104-111 | The size is additive over the hunk list |
| LanguageStats.DiffEntries | cmd/frontend/graphqlbackend/search_results_stats_languages.go:103-113 | One regular file per file diff, named by the new name, sized by its hunks |
| LanguageStats.SawRepo | cmd/frontend/graphqlbackend/search_results_stats_languages.go:38-42 | The ID is recorded, recorded repositories are kept, a new ID maps to the given repository |
| LanguageStats.SawReposKeepsFirst | cmd/frontend/graphqlbackend/search_results_stats_languages.go:38-42 | After a sequence of calls each ID maps to the first repository seen with it |
| LanguageStats.AdjustRepoInventoryAsWritten | cmd/frontend/graphqlbackend/search_results_stats_languages.go:86-91 | As written, the loop divides a copy of each entry, so the inventory comes out unchanged |
| LanguageStats.AdjustAsWrittenDiffers | cmd/frontend/graphqlbackend/search_results_stats_languages.go:86-91 | The corrected adjustment leaves an inventory unchanged iff every language has zero bytes, so it differs from the as-written one on every other inventory |
| LanguageStats.AdjustRepoInventory | cmd/frontend/graphqlbackend/search_results_stats_languages.go:87-90 | Corrected: each language keeps its name and lines and its bytes become the floor of bytes / 31 |
| LanguageStats.KeepFirst | cmd/frontend/graphqlbackend/search_results_stats_languages.go:136-141 | A merge step as written leaves the table unchanged when the name was seen and appends the `Lang` as it is otherwise |
| LanguageStats.MergeAsWritten | cmd/frontend/graphqlbackend/search_results_stats_languages.go:133-143 | As written, entries already stored are never changed; new languages are only appended |
| LanguageStats.MergeLangsAsWritten | cmd/frontend/graphqlbackend/search_results_stats_languages.go:135-142 | The same for one inventory's languages |
| LanguageStats.LangNamed | cmd/frontend/graphqlbackend/search_results_stats_languages.go:136 | The first entry with a name is absent iff the name is not used, and otherwise an entry of the list with that name |
| LanguageStats.FirstLang | cmd/frontend/graphqlbackend/search_results_stats_languages.go:134-135 | The first `Lang` with a name across the inventories in order is absent iff no inventory uses the name |
| LanguageStats.MergeAsWrittenKeepsFirst | cmd/frontend/graphqlbackend/search_results_stats_languages.go:133-143 | As written, the names are the accumulator's and all the inventories', each once, and every entry added is the first `Lang` seen under its name, unchanged |
| LanguageStats.MergeLangsAsWrittenKeepsFirst | cmd/frontend/graphqlbackend/search_results_stats_languages.go:135-142 | The same for one inventory's languages: every entry added is the list's first `Lang` under its name |
| LanguageStats.MergeAsWrittenDropsLaterBytes | cmd/frontend/graphqlbackend/search_results_stats_languages.go:138 | Go 10 then Go 5 merges to Go 10 as written and to Go 15 when corrected |
| LanguageStats.Absorb | cmd/frontend/graphqlbackend/search_results_stats_languages.go:136-141 | Corrected: a merge step raises the language's total by its bytes, adds its name, keeps names unique |
| LanguageStats.MergeLangs | cmd/frontend/graphqlbackend/search_results_stats_languages.go:135-142 | Corrected: merging a language list adds its names and its totals and keeps names unique |
| LanguageStats.Merge | cmd/frontend/graphqlbackend/search_results_stats_languages.go:133-143 | Corrected: the merge has every name once and, per name, the sum of that language's bytes over all inventories |
| LanguageStats.Insert | cmd/frontend/graphqlbackend/search_results_stats_languages.go:149-151 | Inserting into a non-increasing list keeps it non-increasing and adds exactly the element |
| LanguageStats.SortByBytes | cmd/frontend/graphqlbackend/search_results_stats_languages.go:145-151 | The result is non-increasing by total bytes and a permutation of the input |
| LanguageStats.SortKeepsLanguages | cmd/frontend/graphqlbackend/search_results_stats_languages.go:145-151 | Sorting keeps the names, their uniqueness and each language's total |
| LanguageStats.LanguageStatisticsAsWritten | cmd/frontend/graphqlbackend/search_results_stats_languages.go:86-152 | As written, the statistics are sorted non-increasing, one entry per language used anywhere, and each entry is the first `Lang` seen under its name, undivided and not summed |
| LanguageStats.LanguageStatistics | cmd/frontend/graphqlbackend/search_results_stats_languages.go:133-152 | Corrected: the statistics are sorted non-increasing and are a permutation of the merged languages |
| LanguageStats.LanguageStatisticsConserve | cmd/frontend/graphqlbackend/search_results_stats_languages.go:86-152 | Corrected: one entry per language name across all inventories, holding that language's total bytes after the division by 31 |
| LanguageStats.AdjustAll | cmd/frontend/graphqlbackend/search_results_stats_languages.go:86-92 | Corrected: every repository inventory is divided by 31, in order |
| LanguageStats.TypeToString | cmd/frontend/graphqlbackend/search_results_stats_languages.go:161-174 | The rendering is empty iff the type is none of the four known ones |
| LanguageStats.TypeToStringRoundTrip | cmd/frontend/graphqlbackend/search_results_stats_languages.go:161-174 | Each type's rendering reads back as that type, so the four names are distinct |
| AuthzStore.Load | enterprise/cmd/frontend/internal/authz/store.go:512-550 | No row gives a nil set and zero time; an empty column the empty set and zero time; an undecodable column an error; otherwise the stored set and time |
| AuthzStore.BatchLoad | enterprise/cmd/frontend/internal/authz/store.go:553-593 | Fails iff some requested row does not decode; every requested key reads as what `load` would give (empty when omitted); only rows with a non-empty column are returned |
| AuthzStore.UpsertRow | enterprise/cmd/frontend/internal/authz/store.go:197-205 | A nil set or a zero time is refused; an accepted row loads back as exactly the set and time written |
| AuthzStore.Apply | enterprise/cmd/frontend/internal/authz/store.go:154-165 | `CheckedAdd` / `CheckedRemove` report a change iff the set changed; the ID is added or removed and nothing else moves |
| AuthzStore.UpsertEach | enterprise/cmd/frontend/internal/authz/store.go:248-273 | Fails iff the time is zero and some ID changes; each changed ID's row becomes the updated set at the one timestamp; rows of unchanged IDs are untouched |
| AuthzStore.IterateAndUpsertUserPermissions | enterprise/cmd/frontend/internal/authz/store.go:223-276 | Fails iff the batch load fails or the clock is zero with some change; a missing row starts empty; only changed users are rewritten, all with one timestamp, into the repositories-typed row; other tables are untouched |
| AuthzStore.IterateUpdatesListedUsers | enterprise/cmd/frontend/internal/authz/store.go:248-273 | For repositories-typed scans, each listed user's stored set is the update applied to what it held |
| AuthzStore.IterateKeepsOtherUsers | enterprise/cmd/frontend/internal/authz/store.go:248-273 | Rows of unlisted users and of other keys are unchanged |
| AuthzStore.IterateSucceeds | enterprise/cmd/frontend/internal/authz/store.go:241-273 | With a non-zero clock and decodable rows, the iteration succeeds |
| AuthzStore.RepoDiffAsWritten | enterprise/cmd/frontend/internal/authz/store.go:135-140 | As written, both the remove set and the add set are empty for all inputs |
| AuthzStore.SetRepoPermissionsAsWritten | enterprise/cmd/frontend/internal/authz/store.go:123-181 | As written: a missing repository row or nil user IDs fail; were the empty batch load to return no rows, a success would change no user or pending row and store new ∩ old for the repository |
| AuthzStore.SetRepoPermissionsAsWrittenIntersects | enterprise/cmd/frontend/internal/authz/store.go:135-178 | Setting repository 7 from reader 1 to reader 2 as written gives user 2 nothing and leaves user 1's row; with the empty batch loads returning no rows, the repository becomes readable by nobody |
| AuthzStore.SetRepoPermissionsAsWrittenFailsOnNewRepo | enterprise/cmd/frontend/internal/authz/store.go:128-136 | As written, a repository without a row fails on the nil old set; corrected, it gets its row |
| AuthzStore.Granted | enterprise/cmd/frontend/internal/authz/store.go:154-160 | Every user gaining access then holds their old set plus the repository, so their other repositories are kept; no other row changes |
| AuthzStore.Revoked | enterprise/cmd/frontend/internal/authz/store.go:162-168 | Every user losing access then holds their old set minus the repository, so their other repositories are kept; no other row changes |
| AuthzStore.SetRepoPermissions | enterprise/cmd/frontend/internal/authz/store.go:120-181 | Full update: the repository row loads back as exactly the new IDs at the clock reading; other repository rows and pending rows are unchanged; nil IDs and undecodable rows fail |
| AuthzStore.SetRepoPermissionsGrantsAndRevokes | enterprise/cmd/frontend/internal/authz/store.go:120-168 | A user gaining access holds their old set plus the repository, and a user losing access their old set minus it; their other repositories are kept |
| AuthzStore.SetRepoPermissionsKeepsOtherUsers | enterprise/cmd/frontend/internal/authz/store.go:154-168 | User rows of users whose access does not change are untouched |
| AuthzStore.SetRepoPermissionsSucceeds | enterprise/cmd/frontend/internal/authz/store.go:123-181 | Non-zero clocks and decodable rows make the update succeed |
| AuthzStore.SetRepoPermissionsReplacesReaders | enterprise/cmd/frontend/internal/authz/store.go:120-122 | Corrected, moving repository 7 from reader 1 to reader 2 leaves it readable by 2 only, in both tables |
| AuthzStore.GrantToRepos | enterprise/cmd/frontend/internal/authz/store.go:437-468 | Fails iff a pending repository's row does not decode, or the clock is zero and some repository lacks the user; every pending repository then lists the user; a repository row lacking the user becomes its old set plus the user at the clock reading; no other repository row is rewritten |
| AuthzStore.GrantPendingPermissions | enterprise/cmd/frontend/internal/authz/store.go:396-471 | A missing pending row fails; the user's Sourcegraph row becomes exactly the pending IDs at the clock reading; other users are untouched; every pending repository lists the user, a row lacking the user becoming its old set plus the user at the clock reading; repositories already listing the user are not rewritten |
| AuthzStore.GrantPendingPermissionsSucceeds | enterprise/cmd/frontend/internal/authz/store.go:396-471 | With a decodable pending row, non-zero clocks and decodable repository rows, the grant succeeds |
| AuthzStore.WritablePrefix | enterprise/cmd/frontend/internal/authz/store.go:347-358 | The entries before the first unwritable one are writable, and the one at the index is not |
| AuthzStore.SetPendingPermissions | enterprise/cmd/frontend/internal/authz/store.go:343-393 | Entries are written in order with one timestamp until the first failure, which is reported; a zero clock writes nothing; every row changed carries the timestamp |

## Left out

- The rxjs diagnostics stream (`travisGo.ts:49-100` apart from the per-file rule): search, document opening, `switchMap`, `publishReplay` and `refCount` are asynchronous plumbing over APIs not part of this model.
- The status provider and the registration (`travisGo.ts:12-47`): static content and extension wiring.
- `WorkspaceEdit`, `positionAt` and `textEdits()` internals: an edit is a sequence of insertions; its `textEdits()` count is the number of files it touches; positions are (line, column) pairs over the split lines.
- TravisGo.ComputeFixAllAction: `openText` is a total function, so a rejected `openTextDocument` (`travisGo.ts:176`), which rejects the fix-all computation and with it `provideCodeActions` (`travisGo.ts:110`), is not represented.
- TravisGo.EndOfDocument: columns count characters, while `positionAt` (`travisGo.ts:155`) counts UTF-16 code units; the two differ on a last line holding characters outside the Basic Multilingual Plane.
- The enry library (`GetLanguageByExtension`, `GetLanguage`, `IsVendor`, `GetLanguageType`) is uninterpreted; the `init` table patch (`inventory.go:118-125`) changes only that library's tables.
- Inventory.GetLang: the `bufio.Scanner` line count is a given per-file value, and closing the reader is not modelled.
- go-diff parsing, git reads, `backend.Repos.GetInventory`, `CachedGitRepo`, `InventoryContext` and the `filesMap` grouping by repository and commit: external services; the model starts from the parsed hunks and the inventories they produce.
- The iteration order of Go maps (`byLang`, `filesMap`) and the order of equal totals after `sort.Slice`: the statistics are a permutation, sorted by bytes, with ties in an unspecified order.
- Integer widths: byte totals are unbounded (the source uses `uint64`), and the `int32` truncation of `TotalBytes()` (`search_results_stats_languages.go:158`) and the `uint32`/`int32` ID casts of the store are not modelled.
- SQL text, tracing (`observe`), the transaction type switch and commit or rollback, and all database errors except the refusal of a pending row in `SetPendingPermissions`; transactional operations are all-or-nothing, which is what the functions return.
- AuthzStore.BatchLoad: an empty key list renders `WHERE ... IN ()` (`store.go:288`), which PostgreSQL rejects as a syntax error; the model reads it as returning no rows. So `IterateAndUpsertUserPermissions`, `GrantToRepos`, `SetRepoPermissions` and `GrantPendingPermissions` do not promise the failure and rollback the code meets whenever the set it iterates over is empty.
- Roaring serialisation (`ToBytes`, `UnmarshalBinary`, `RunOptimize`): a column is a set, empty, or undecodable; a nil bitmap reaching `RunOptimize` or `Clone`, which panics, is the error `NilBitmap`.
- `LoadUserPermissions`, `LoadRepoPermissions` and `LoadPendingPermissions` (`store.go:36-100`) are `load` on one key and share `AuthzStore.Load`; their doc comment promises an error when nothing is stored, but the code returns a nil set without error, which is what is modelled.
- AuthzStore.SetRepoPermissions: the Go method also writes its result back into the caller's argument (`p.UserIDs = isec` and `p.UpdatedAt`, `store.go:171-173`), so a caller of the code as written sees new ∩ old there; the model returns only the new tables and does not represent that write-back.
- AuthzStore.SetPendingPermissions: the Go method also sets `UpdatedAt` of every entry it is given to the one clock reading (`store.go:350`); the model returns only the new tables and the error, not the updated arguments.
- AuthzStore.GrantPendingPermissions: the Go method also fills the caller's pending struct with the loaded IDs and time (`store.go:404`); the model returns only the new tables.
- The concurrency-safety claim of the store.

## Findings

| source | as written | input that shows it | evidently intended | confidence | as-written member | corrected member |
|---|---|---|---|---|---|---|
| cmd/frontend/graphqlbackend/search_results_stats_languages.go:136-138 | `langInv` is a copy of the map's value, so `+=` is lost and a repeated language keeps its first-seen total | two inventories with Go 10 and Go 5 give Go 10 | per-language totals are summed (Go 15) | not executed | LanguageStats.MergeAsWrittenDropsLaterBytes | LanguageStats.Merge |
| cmd/frontend/graphqlbackend/search_results_stats_languages.go:88-89 | `l` is a copy of each `Lang`, so the division by 31 is never stored | a repository inventory with Go 62 stays 62 | each repository total is divided by 31 (Go 2) | not executed | LanguageStats.AdjustAsWrittenDiffers | LanguageStats.AdjustRepoInventory |
| enterprise/cmd/frontend/internal/authz/store.go:135-140 | the add and remove sets are differences of new ∩ old with old and with new, hence always empty; the first batch load then queries `IN ()`, which PostgreSQL rejects, so the call fails and rolls back; were that query to return no rows, the repository would store new ∩ old | repository 7 readable by user 1, set to user 2 only: user 2 never gains access and user 1 keeps it (the call fails; with no rows read, the repository would become readable by nobody) | full replacement: toAdd = new \ old, toRemove = old \ new, repository row = new | not executed | AuthzStore.SetRepoPermissionsAsWrittenIntersects | AuthzStore.SetRepoPermissionsReplacesReaders |
| enterprise/cmd/frontend/internal/authz/store.go:128-136 | a repository without a row loads a nil old set, and `isec.And(nil)` panics | first permissions for repository 7 with no row stored | a missing row reads as the empty set, as in `iterateAndUpsertUserPermissions` | not executed | AuthzStore.SetRepoPermissionsAsWrittenFailsOnNewRepo | AuthzStore.SetRepoPermissions |
