# desktop-entries: the scan-and-lookup pipeline in Dafny

`desktop-entries` is a small Go program. It walks four application directories, finds every
`.desktop` launcher file, and indexes each `[Desktop Entry]` section of those files in a prefix
map. The key is the lower-cased `Name`. It then reads one line from standard input and prints every
indexed launcher whose key starts with that line, lower-cased.

This project models that pipeline in `main.go` and proves properties of the model:

- `text.dfy` (module `Text`): ASCII lower-casing, the prefix relation and the suffix test.
- `prefixmap.dfy` (module `PrefixMaps`): the `prefixmap` library's observable interface.
  - The map is a class whose state is the sequence of bindings inserted so far.
  - `Insert` appends a binding.
  - `GetByPrefix` returns the value of every binding whose key starts with the prefix.
- `entries.dfy` (module `Entries`): the `DesktopEntry` record, INI sections, and how the section
  loop of one file turns into insertions.
- `scan.dfy` (module `Scan`): the walk callback's decision table, one directory's walk, and the
  loop over the directory list.
  - Each is a pure specification function plus an imperative method proved equal to it.
  - Lemmas state ordering, append-only growth, error logging and abort behaviour.
- `query.dfy` (module `Query`): the query built from the input line, the lookup made with it, a
  corrected query (see Findings), and two end-to-end scenarios.

### How the environment is represented

- A directory's walk is the sequence of callback invocations `filepath.WalkDir` makes for it.
  - Each invocation (`WalkEvent`) has a path, an entry name (missing when `WalkDir` passes a nil
    entry), an optional error, and what `ini.Load` returns for that path.
  - As in `WalkDir`, the walk stops at the first callback that returns an error.
- `os.Exit(1)` after a failed load and the nil-entry panic are outcomes (`Killed(ExitOne)`,
  `Killed(Panic)`), not process termination.
- The error the scan logs (main.go:101-103) is returned as a list.

### Code behaviour that is easy to miss (the model follows the code)

- **Unreadable `.desktop` file.** A file the INI loader rejects does not just get skipped. The
  callback calls `os.Exit(1)` (main.go:80-84). `Scan.WalkStopsAtFirstNonNil` and `Scan.WalkAppend`
  prove that no later file of the same directory is visited. `Scan.FatalReplyEndsScan` and
  `Query.MalformedFileEndsScan` prove that no later directory is scanned.
- **Walk error on a `.desktop` entry.** The entry is not simply skipped. The callback returns the
  error to `WalkDir` (main.go:77-79), which ends that directory's walk. The error is logged and the
  scan goes on with the next directory.
- **Root that cannot be lstat'ed.** This is a root that cannot be `os.Lstat`'ed for a reason other
  than not-exist. For example, a path component is not a directory, or a parent directory is not
  searchable. `WalkDir` then calls the callback with a nil entry, and main.go:74 dereferences it.
  The model gives this the explicit outcome `NilDeref`, and the run ends `Killed(Panic)`. A root
  that exists but cannot be listed is different. `WalkDir` then calls the callback with the
  root's own entry, which is not a `.desktop` name, so the callback returns nil and the scan goes
  on.
- **Result order across keys.** The library's order across different keys is not known here. The
  model returns values in insertion order, which is one admissible order. Only the membership
  clauses and the order within one key carry over to the library. The clauses that place values of
  different keys relative to each other describe the model's chosen order (see "## Left out").

## Model

| member | source | states |
|---|---|---|
| `Text.ToLower` | main.go:35 | the result has the input's length; every ASCII upper-case letter becomes its lower-case letter (code point plus 32), no upper-case letter is left, and every other character is kept in place |
| `Text.HasSuffix` | main.go:74 | a string ends with a suffix exactly when it is some string followed by that suffix |
| `PrefixMaps.Matching` | main.go:42 | a lookup never returns more values than there are bindings |
| `PrefixMaps.PrefixMap.constructor` | main.go:64 | `prefixmap.New()` gives a map with no bindings |
| `PrefixMaps.PrefixMap.Insert` | main.go:97 | appends the binding verbatim, keeping duplicates; afterwards every lookup returns its old results, followed by the new value exactly when the prefix starts the key |
| `PrefixMaps.PrefixMap.GetByPrefix` | main.go:42 | every returned value is bound under a key that starts with the prefix; every such value is returned; the empty prefix returns as many values as were inserted |
| `PrefixMaps.MatchingMembers` | main.go:42 | prefix correctness in both directions: no more results than bindings, each result bound under a matching key, each binding under a matching key found |
| `PrefixMaps.MatchingAppend` | main.go:97 | a lookup over two batches of inserts is the first batch's results followed by the second's |
| `PrefixMaps.MatchingEmptyPrefix` | main.go:42 | the empty query returns every inserted value, position by position in insertion order |
| `PrefixMaps.MatchingKeepsInsertionOrder` | main.go:97 | two values inserted under one key are both found by any prefix of it, the first before the second. The result is exactly the matches before the first, then the first, the matches between, the second, and the matches after |
| `Entries.KeyValue` | main.go:94-95 | a key the section has gives its value, and a non-empty result only comes from a key the section has |
| `Entries.MakeEntry` | main.go:91-95 | the record carries the walked path and the section's `Name` and `Exec` values, each empty when the section lacks it |
| `Entries.InsertOf` | main.go:91-97 | the insertion is the section's record under the lower-cased name, a key as long as the name with no upper-case letter |
| `Entries.FileInserts` | main.go:85-98 | a file gives no more insertions than it has sections, each carrying the file's path under its record's lower-cased name |
| `Entries.FileInsertsStep` | main.go:85-98 | one more section adds exactly its own insertion when it is a `Desktop Entry` section and nothing otherwise, so each section gives at most one |
| `Entries.FileInsertsAppend` | main.go:85-98 | the insertions of a file are those of its first sections followed by those of the rest, so sections are handled in order and independently |
| `Entries.FileInsertsCount` | main.go:85-97 | exactly one insertion per section whose name is exactly `Desktop Entry` |
| `Entries.FileInsertsMembers` | main.go:86-97 | each insertion comes from a `Desktop Entry` section and carries the walked path, that section's `Name` and `Exec` values and the key `ToLower(Name)`; every such section is inserted |
| `Entries.MissingNameGivesEmptyName` | main.go:94-97 | a `Desktop Entry` section without `Name` gives a record with an empty name under the empty key |
| `Entries.InsertSections` | main.go:85-98 | the section loop appends exactly the file's insertions to the index |
| `Scan.CandidateDirs` | main.go:57-62 | four directories: two whose paths start with the home string, then `/usr/share/applications` and `/usr/local/share/applications/` |
| `Scan.IsNotExist` | main.go:70 | `errors.Is(err, os.ErrNotExist)`: there is an error and it is a not-exist error, whatever its message |
| `Scan.IsDesktopName` | main.go:74 | a name is a `.desktop` name exactly when its last eight characters spell `.desktop` in any mix of ASCII case |
| `Scan.DesktopSuffixNames` | main.go:74 | every name that ends in `.desktop`, whatever comes before it, is a `.desktop` name |
| `Scan.Decide` | main.go:68-79 | the callback's decision table, each outcome characterised independently: not-exist errors are skipped before anything else; otherwise a missing entry is dereferenced at the name test; an entry not ending in `.desktop` is skipped whatever its error; other errors are returned only for `.desktop` entries; only an error-free `.desktop` entry is loaded |
| `Scan.CallbackOutcome` | main.go:67-99 | a skipped event (not-exist error, or a name not ending in `.desktop`) returns nil and inserts nothing; any other error on a `.desktop` entry is returned unchanged and inserts nothing; only a loaded file inserts anything, and then exactly its sections' insertions; a failed load is the only way to `os.Exit`; the nil-entry panic happens exactly on a missing entry whose error is not a not-exist error |
| `Scan.ErrorOnOtherEntryIgnored` | main.go:74-79 | an entry whose name does not end in `.desktop` gives a nil reply and no insert, even when it carries an error |
| `Scan.WalkFinishedIff` | main.go:66-100 | a directory's walk runs to the end exactly when every callback returns nil |
| `Scan.WalkAppend` | main.go:66-100 | a walk is its first part followed by the rest, and nothing after a non-nil reply is visited |
| `Scan.WalkStopsAtFirstNonNil` | main.go:77-84 | the first error return or exit ends the walk: its insertions are those of the events before it |
| `Scan.WalkEndExplained` | main.go:68-84 | a walk returns an error only if the callback was handed that error for a `.desktop` entry; it exits only after a load the INI loader rejected; it panics only on an event without an entry |
| `Scan.WalkInsertsFromDesktopSections` | main.go:74-97 | every insertion of a walk comes from a `Desktop Entry` section of a loaded `.desktop` file; when the walk finishes, every such section is inserted |
| `Scan.RunAppend` | main.go:65-104 | scanning two directory lists one after the other: the second contributes only if the process survived the first |
| `Scan.RunOne` | main.go:65-103 | one directory: its walk's insertions, its returned error logged, and the run killed only by an exit or panic |
| `Scan.WalkErrorLoggedAndScanGoesOn` | main.go:65-103 | a directory whose walk returns an error has that error logged in sequence, keeps its earlier insertions, and the later directories are still scanned |
| `Scan.FatalReplyEndsScan` | main.go:80-84 | a failed load (or the panic) ends the run with that fatal status, and no later directory adds anything |
| `Scan.RunEndExplained` | main.go:65-103 | no more errors are logged than there are directories; each logged error is one that some directory's walk returned; a killed run was killed by some directory's walk |
| `Scan.CompletedRunLogsEveryWalkError` | main.go:65-103 | a completed scan has logged exactly the error each directory's walk returned, in directory order, so at most one per directory |
| `Scan.ScanIsAppendOnly` | main.go:64-104 | what the first k directories inserted is a prefix of what the whole scan inserts: nothing is removed or reordered |
| `Scan.Callback` | main.go:67-99 | the callback method replies as `CallbackOutcome` says and appends exactly its insertions to the index |
| `Scan.WalkDir` | main.go:66-100 | one directory's walk ends as `WalkOutcome` says and appends exactly its insertions |
| `Scan.IndexDirectories` | main.go:64-105 | a fresh index holding exactly the whole scan's insertions in directory, walk and section order, with the logged errors and the final status |
| `Scan.GetDesktopEntries` | main.go:51-106 | the same for the four candidate directories |
| `Query.NormalizeQuery` | main.go:31-35 | the query has the line's length and its line feeds in the same places, so a trailing line feed survives |
| `Query.NewlineQueryFindsNothing` | main.go:31-42 | a query ending in a line feed finds nothing in an index with no line feed in any key |
| `Query.Search` | main.go:40-42 | the as-written lookup: exactly the values under keys starting with the lower-cased line, so a line ended by Enter finds nothing when no key has a line feed |
| `Query.StripLineEnd` | main.go:31 | the line is its body, or the body plus `\n` or `\r\n`; one that ends in a line feed loses it, and loses only that line feed when no carriage return comes before it |
| `Query.StripLineEndRecoversTyped` | main.go:31 | the typed text is recovered from the text plus `\n` or plus `\r\n` |
| `Query.CorrectedQuery` | main.go:35 | without a line feed, the as-written query; with one, the lower-cased text typed before it |
| `Query.CorrectedQueryFindsTypedPrefix` | main.go:35-42 | with the corrected query, a record is found when the lower-cased typed text starts its key |
| `Query.CorrectedSearch` | main.go:42 | the corrected lookup: exactly the values under keys starting with the lower-cased line without its terminator |
| `Query.FirefoxScenario` | main.go:65-98 | one directory with `firefox.desktop` indexes one record under `firefox`: `fire` finds it, `zzz` does not, `fire` plus Enter finds nothing as written, `FIRE` plus Enter finds it when corrected |
| `Query.MalformedFileEndsScan` | main.go:80-84 | an unreadable `.desktop` file after `firefox.desktop` ends the scan with exit status 1; Firefox stays indexed and no later directory is scanned |

## Findings

| source | as written | input that shows it | evidently intended | confidence | as-written member | corrected member |
|---|---|---|---|---|---|---|
| main.go:31-35 | `ReadString('\n')` keeps the line feed, and the query is the whole line lower-cased, line feed included | the line `fire` plus Enter against an index holding `firefox` gives no result (`Query.FirefoxScenario`) | remove the line terminator before lower-casing, so `fire` plus Enter finds Firefox | high (reasoned from the code, not executed) | `Query.NewlineQueryFindsNothing` | `Query.CorrectedQueryFindsTypedPrefix` |

## Left out

- The file system and `filepath.WalkDir`'s traversal. A walk is given as its sequence of callback invocations. Symlinks, traversal order and directory descent are not modelled.
- INI parsing by `ini.Load`. A file's content is the sequence of sections the library returns. How the library treats malformed lines, comments and repeated section headers is not modelled.
- `Entries.KeyValue` models `section.Key(k).String()` only as lookup with `""` as the default.
- The `prefixmap` trie. Only its interface is modelled, so the cost of a lookup (the prefix length plus the result count) is not modelled.
- `PrefixMaps.PrefixMap.GetByPrefix`: returns values in insertion order. The library's order across different keys is not modelled.
- `PrefixMaps.PrefixMap.Insert`: its second postcondition places the new value after every earlier result, including values under other keys. That is the model's insertion order, not an order the library promises.
- `PrefixMaps.MatchingAppend`: the results of the first batch come before those of the second even across different keys. This holds for the model's insertion order only.
- `PrefixMaps.MatchingEmptyPrefix`: the position-by-position clause is about the model's insertion order. For the library, only the count (every inserted value is returned) carries over.
- `PrefixMaps.MatchingKeepsInsertionOrder`: the exact split places the matches of `before`, `between` and `after` relative to the two values. That is the model's order. Only the order of the two values under one key is about the library.
- `Text.ToLower`: lower-cases ASCII letters only. Go's `strings.ToLower` applies Unicode case mapping.
- Reading standard input (main.go:30-34). The line is a parameter. On a read error the program logs it and goes on with the partial line, and the model takes that line the same way.
- Printing to standard output: the prompt (main.go:29), the results (main.go:41-48), the `walk error` line at main.go:69 and the load-failure message at main.go:82. The logging of the input error (main.go:33) and of the home-directory warning (main.go:54) is left out as well. The `log.Println` of a walk error at main.go:101-103 is modelled, as `Run.logged`.
- `os.UserHomeDir` (main.go:52-55). The home directory is a parameter of `Scan.GetDesktopEntries`. When it cannot be found, Go yields `""`, and passing `""` gives the same directory list.
- The `any`-to-`DesktopEntry` type assertion (main.go:44). The index holds `DesktopEntry` values directly.
- Process termination. `os.Exit(1)` and the nil-entry panic are status values. Nothing after them is modelled.
