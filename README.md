# AtCoder submissions sync — a Dafny model of its core

submissions-sync mirrors a user's AtCoder submissions into a git repository, one
commit per submission. It works in five steps:

- It fetches the user's submission list from the AtCoder Problems API, through a
  delay-paced and file-cached HTTP layer, and validates every record.
- It sorts the user's own submissions by time.
- It finds the first one not yet recorded, with a binary search over "is this file
  already in the repository".
- It downloads the code of up to `limit` new submissions and shapes each into a commit:
  a lower-cased file path, a subject (the submission's details URL) and an ISO 8601
  author date.
- It saves the batch. The save refuses duplicate or already-recorded paths and an unfit
  repository before changing anything in git. It commits everything on a throw-away work branch,
  merges it into the current branch, rolls back on failure and always deletes the work
  branch.

The model follows the source file by file:

| file | module | form |
|---|---|---|
| src/utils.ts | `Utils` | pure functions and lemmas |
| src/app.ts | `App` | `UnexistingItems`, `BuildExtMap`, `MapEach`/`CalculateCommits` and `FetchContents` are methods with loops; the path and URL builders are functions |
| src/app-save.ts | `GitSave`, `AppSave` | the pipeline is a sequence of awaited steps on a `GitClient` object |
| src/infra-http.ts | `InfraHttp` | `FetchLayer` object over a cache map and an effect log |
| src/infra-files.ts | `InfraFiles` | path builders as functions; `FileStore` object over a file map |
| src/infra.ts | `Infra` | the `RealRepo` and `LocalRepo` classes |
| src/infra-atcoder.ts | `InfraAtcoder` | validator over parsed JSON |

`Strings` holds the JavaScript string operations the source relies on:

- `String(n)` and `padStart(2, "0")`;
- ASCII `toLowerCase`;
- `split`/`join`.

`Encoding` holds the UTF-8 and base64 encoders behind `Buffer.from(url).toString("base64")`.

How git and the outside world are modelled:

- Git is a `Repository` value that answers `checkIsRepo`, `diff` and `branchLocal`. Its
  set of `faults` names the trace positions whose awaited command rejects.
- A save's observable behaviour is its result together with the ordered trace of steps
  it issues.
- `SaveOutcome` is the reference definition of that pair. `GitSave.Save` is the
  imperative pipeline, proved equal to it.

Where the model follows the code literally:

- The source reads the `Date` getters, which report the process's own time zone, so the
  model takes the decomposed local date as an oracle `zone`.
- `g.checkout(currentBranch).catch()` has no handler, so it does not swallow a rejection.
  The model takes this literally: a failing rollback checkout replaces the original
  error, and a failing `deleteLocalBranch` in `finally` replaces whatever came before.
- src/app.ts:62-71 builds `atcoder/<year>/<MM>-…`, and pads `month + 1` on top of the
  already 1-based month from `decomposeEpochSecond`, so September is printed as `10`.
  The repository's own test (src/app.ts:170-173) expects exactly this, so the model keeps
  it (`App.AppSubmissionPathMonthSlot`).

## Model

| member | source | states |
|---|---|---|
| Utils.Unique | src/utils.ts:9-10 | result has no duplicates, every element comes from the input, every input element survives, never longer than the input |
| Utils.UniqueLength | src/utils.ts:9-10 | `unique(xs)` is as long as `xs` exactly when `xs` has no duplicates, which is the duplicate check `saveSubmissions` relies on |
| Utils.UniqueKeepsFirstOccurrenceOrder | src/utils.ts:9-10 | the kept elements appear in the order of their first occurrences in the input |
| Utils.NormalizeEOLPasses | src/utils.ts:12-14 | `normalizeEOL` is two split/join passes: `"\r\n"` to `"\n"`, then `"\n"` to EOL |
| Utils.NormalizeEOLWithoutCR | src/utils.ts:12-14 | on text without `'\r'` it only replaces each `'\n'` with EOL |
| Utils.NormalizeEOLWithoutLF | src/utils.ts:12-14 | text without `'\n'` comes back unchanged |
| Utils.NormalizeEOLSinglePass | src/utils.ts:12-14 | a single pass: with EOL `"\n"`, `"\r\r\n"` becomes `"\r\n"` |
| Utils.DecomposeEpochSecond | src/utils.ts:16-26 | month is the zone's 0-based month plus one; a valid local date gives valid calendar fields |
| Utils.DateStringLayout | src/utils.ts:31-42 | for a four-digit year the string has length 25, separators `- - T : :` at fixed offsets, suffix `+09:00`, and each digit group reads back as its field |
| Utils.DateStringInjective | src/utils.ts:31-42 | two valid date-times with four-digit years and the same string are equal |
| Utils.DateStringExample | src/utils.ts:51-53 | 2018-09-08 21:32:42 prints as `2018-09-08T21:32:42+09:00` |
| Strings.NatToString | src/utils.ts:32 | decimal digits, one digit exactly below 10, no leading zero |
| Strings.NatToStringRoundTrip | src/utils.ts:32 | the printed digits read back as the number |
| Strings.IntToString | src/utils.ts:35 | `String(n)`: digits for non-negative numbers, `-` and the digits of `-n` otherwise |
| Strings.IntToStringInjective | src/infra-files.ts:33 | distinct numbers print differently |
| Strings.PadStart2 | src/infra-files.ts:23 | `padStart(2, "0")`: strings of length two or more unchanged, shorter ones left-filled with `'0'` to length 2 |
| Strings.Pad2TwoDigits | src/infra-files.ts:23 | values 0..99 pad to exactly two digits that read back as the value |
| Strings.Pad2Wide | src/infra-files.ts:23 | values of 100 and above are printed unpadded |
| Strings.ToLower | src/infra-files.ts:33 | `toLowerCase` keeps the length |
| Strings.ToLowerNoUpper | src/infra-files.ts:33 | the result has no upper-case letter |
| Strings.ToLowerIdempotent | src/infra-files.ts:33 | lower-casing twice is lower-casing once |
| Strings.JoinSplit | src/utils.ts:13 | `s.split(pat).join(rep)` replaces every occurrence of `pat` |
| Strings.ReplaceAllAbsent | src/utils.ts:13 | replacing an absent pattern changes nothing |
| Encoding.Utf8RoundTrip | src/infra-http.ts:15-16 | decoding the UTF-8 bytes of a string gives the string back |
| Encoding.Base64RoundTrip | src/infra-http.ts:15-16 | decoding the base64 text of a byte string gives the bytes back |
| InfraHttp.DelaySafe | src/infra-http.ts:13-19 | the pause is `max(1000, delayMs)`: never below 1000 and never below the request |
| InfraHttp.UrlToCacheKeyInjective | src/infra-http.ts:15-16 | distinct URLs (sequences of Unicode scalar values) never share a cache key |
| InfraHttp.FetchLayer.FetchHtml | src/infra-http.ts:29-48 | a hit returns the cache with no effect; a miss pauses, requests, and stores under the URL's key only when the request succeeds; every request follows a pause; a miss adds exactly one request and one pause to the counts, a hit none |
| InfraHttp.FetchLayer.FetchJson | src/infra-http.ts:51-58 | always one pause then one request; the cache is untouched |
| InfraHttp.CountAppend | src/infra-http.ts:73-111 | request and pause counts add up over concatenated effect logs |
| InfraHttp.PacedBySafeDelay | src/infra-http.ts:18-19 | with the `delaySafe` pause, every request is preceded by a pause of at least 1000 ms and of at least the configured delay |
| InfraHttp.MissCounts | src/infra-http.ts:43-47 | the effects of a miss, whether its request succeeds or throws, hold exactly one request and one pause |
| InfraHttp.UsesCacheScenario | src/infra-http.ts:62-93 | fetching one URL twice and a second URL once, with the test's store that reads an empty entry as missing, makes two requests and two pauses |
| InfraFiles.SubmissionPathLower | src/infra-files.ts:22-34 | the path has no upper-case letter |
| InfraFiles.SubmissionPathCaseInsensitive | src/infra-files.ts:33 | identifiers differing only in letter case (work dir included) get the same path |
| InfraFiles.SubmissionPathUnderWorkDir | src/infra-files.ts:33 | the path starts with the lower-cased work dir and a `/` |
| InfraFiles.SubmissionPathExample | src/infra-files.ts:106-116 | the repository's example identifier maps to `~/submissions/atcoder/2018-09/08-21-32-42-abc109_d-ac.rs` |
| InfraFiles.CachePathInjective | src/infra-files.ts:14-15 | distinct cache keys live at distinct paths under `<workDir>/~cache/` |
| InfraFiles.FileStore.FindCache | src/infra-files.ts:51-59 | the stored content of the key's cache file, or nothing when the file is absent |
| InfraFiles.FileStore.StoreCache | src/infra-files.ts:88-91 | writes the key's cache file and no other cache entry |
| InfraFiles.FileStore.SubmissionExists | src/infra-files.ts:78-81 | true exactly when the identifier's path is present |
| InfraFiles.FileStore.WriteCommit | src/infra-files.ts:93-97 | writes the commit's content at `commitToFilePath` and changes nothing else |
| InfraFiles.StoreThenFind | src/infra-files.ts:83-91 | `storeCache` then `findCache` of the same key yields the stored content |
| InfraFiles.WriteThenExists | src/infra-files.ts:78-97 | after `writeCommit`, `submissionExists` of the commit's identifier is true |
| InfraAtcoder.Field | src/infra-atcoder.ts:26-29 | destructuring: an object's own field; nothing for numbers, booleans and null |
| InfraAtcoder.VerifySubmission | src/infra-atcoder.ts:25-50 | null cannot be destructured; a record is accepted iff all ten field checks hold (the user matching), and the result carries exactly those ten values |
| InfraAtcoder.VerifySubmissionRoundTrip | src/infra-atcoder.ts:46-49 | the API record of a submission validates back to the same submission |
| InfraAtcoder.VerifySubmissionForeignUser | src/infra-atcoder.ts:36 | a record of another user is rejected |
| InfraAtcoder.VerifySubmissionIgnoresExtraFields | src/infra-atcoder.ts:46-49 | extra fields do not affect the outcome |
| InfraAtcoder.VerifySubmissionNonRecord | src/infra-atcoder.ts:31-43 | arrays, strings, numbers and booleans are rejected as unexpected data |
| InfraAtcoder.VerifyAll | src/infra-atcoder.ts:60 | element-wise validation: same length and order on success, the first failing record's error otherwise |
| InfraAtcoder.VerifyAllFailsAt | src/infra-atcoder.ts:60 | one bad record fails the whole list |
| InfraAtcoder.AtcoderFetchSubmissions | src/infra-atcoder.ts:52-61 | a fetch error propagates; a non-array is unexpected data; a success holds, item by item, what `verifySubmission` makes of that item; a rejected array fails with the error of its first rejected item |
| InfraAtcoder.AtcoderFetchSubmissionsRoundTrip | src/infra-atcoder.ts:52-61 | an API answer listing the user's submissions yields exactly those submissions |
| InfraAtcoder.AtcoderFetchSubmissionsForeign | src/infra-atcoder.ts:36 | one foreign record makes the whole fetch fail rather than being filtered out |
| InfraAtcoder.AtcoderSubmissionDetailsUrlInjective | src/infra-atcoder.ts:9-10 | the details URL determines contest and id |
| InfraAtcoder.AtcoderFetchCode | src/infra-atcoder.ts:17-23 | a fetch error propagates; empty extracted code fails; otherwise the code EOL-normalised |
| InfraAtcoder.AtcoderFetchCodeWithoutCR | src/infra-atcoder.ts:17-23 | code without `'\r'` comes back with each `'\n'` replaced by EOL |
| App.Trim | src/app.ts:20 | `trim` yields a slice of the input, with only white space cut on either side and no white space left at either end |
| App.TrimUnchanged | src/app.ts:20 | a string without surrounding white space is unchanged |
| App.FindParenGroup | src/app.ts:20 | the leftmost `(` that has a `)` on its line, paired with the last such `)` (greedy `/\(.*\)/`) |
| App.RemoveVerNoGroup | src/app.ts:20 | without a `(` only trimming happens |
| App.RemoveVerVersioned | src/app.ts:20 | `"<name> (<version>)"` becomes `<name>` |
| App.ExtMapKeys | src/app.ts:22-28 | the map's keys are the stripped table names and `C++11` |
| App.ExtMapLastRowWins | src/app.ts:23-25 | a later row with the same stripped name overwrites an earlier one |
| App.BuildExtMap | src/app.ts:22-28 | the loop builds the map of the stripped table plus `C++11 → .cpp` |
| App.ExtFromLang | src/app.ts:30 | the map's extension for the stripped language; missing or empty gives `undefined` |
| App.ExtFromLangCpp11 | src/app.ts:28 | any `C++11 (<version>)` maps to `.cpp` |
| App.ExtFromLangRow | src/app.ts:145-150 | `"<name> (<version>)"` maps to the extension of the last table row named `<name>` |
| App.UnexistingItems | src/app.ts:40-55 | the result is always a suffix of the input, starting at an item `exists` rejects and right after one it accepts; when `exists` holds on exactly a prefix it is precisely the unrecorded items; `exists` is called at most ⌈log2(n+1)⌉ times |
| App.UnrecordedOfSplit | src/app.ts:33-39 | with the recorded items forming a prefix, the unrecorded ones are the suffix after it |
| App.CeilLog2Bounds | src/app.ts:46-52 | ⌈log2 g⌉ is the least power of two reaching g |
| App.UnexistingItemsExample | src/app.ts:152-157 | `[0,1,2,3,5,8,13]` with `{0,1,2,3,5}` recorded gives `[8, 13]` |
| App.UnexistingItemsEdges | src/app.ts:159-167 | nothing recorded gives the whole list; everything recorded gives `[]` |
| App.SubmissionDetailsUrlInjective | src/app.ts:57-59 | the details URL (the commit subject) determines contest and id |
| App.AppSubmissionPathLower | src/app.ts:62-71 | the path has no upper-case letter |
| App.AppSubmissionPathMonthSlot | src/app.ts:62-71 | the path is `atcoder/<4-digit year>/<MM>-…` with `MM` the zone's 0-based month plus two |
| App.AppSubmissionPathUnknownLanguage | src/app.ts:69-70 | an unknown language ends the path in the literal text `undefined` |
| App.DatedPathSplit | src/app.ts:65-70 | the path is the month head followed by the lower-cased name and extension |
| App.MapEach | src/app.ts:107-118 | the push loop builds the element-wise image of the input |
| App.CalculateCommits | src/app.ts:107-118 | the loop yields the commits of the reference `CommitsOf` |
| App.CommitsOfAt | src/app.ts:107-118 | one commit per submission, in order: path, details URL subject, content and JST author date |
| App.CommitOfFields | src/app.ts:111 | submissions with distinct contest or id get distinct subjects |
| App.SortByEpoch | src/app.ts:100 | the sort is a permutation |
| App.SortByEpochSorted | src/app.ts:100 | the sort is ascending by epoch second |
| App.SortByEpochStable | src/app.ts:100 | the sort is stable: the submissions sharing one epoch second keep their order |
| App.RecentSubmissions | src/app.ts:99-105 | the result is the binary search's cut of the sorted list |
| App.FetchSubmissionCode | src/app.ts:82-88 | the fetch error propagates; empty extracted code fails; otherwise the EOL-normalised code |
| App.FetchSubmissionCodeWithoutCR | src/app.ts:82-88 | code without `'\r'` only has its line feeds replaced |
| App.FetchContents | src/app.ts:90-97 | on success one entry per submission with its fetched code, in order; otherwise the first failing fetch's error |
| App.OwnSubmissions | src/app.ts:122 | only the user's submissions, and all of them |
| App.OwnSubmissionsCount | src/app.ts:122 | each of the user's submissions is kept as often as the input holds it, and no other submission is kept |
| App.OwnSubmissionsAppend | src/app.ts:122 | the filter keeps input order: filtering a concatenation concatenates the filtered parts |
| App.SliceTo | src/app.ts:124 | `slice(0, limit)`, including JavaScript's negative `limit` |
| App.SuffixWindow | src/app.ts:120-128 | the limited window of a sorted suffix is sorted, the user's own and a window of the sorted list |
| App.PickIncoming | src/app.ts:120-124 | at most `limit` submissions, all the user's own, ascending by time; with a recorded prefix exactly the first `limit` unrecorded ones |
| App.IncomingCommits | src/app.ts:120-128 | on top of `PickIncoming`: one commit per picked submission with its code, or the error of the first failing fetch, every earlier fetch having succeeded |
| GitSave.GitClient.Await | src/app-save.ts:36-72 | each awaited step is appended to the trace; it resolves iff git does not reject at that position |
| GitSave.FirstFailureFirst | src/app-save.ts:47-66 | no step before the first failure fails, and that step fails |
| GitSave.Save | src/app-save.ts:11-74 | the imperative pipeline returns the result and issues exactly the trace of `SaveOutcome` |
| GitSave.TryBlock | src/app-save.ts:47-66 | the try block runs its steps until the first rejection and reports its position |
| GitSave.TryAndClean | src/app-save.ts:47-72 | the try block, its rollback checkout on failure and the work branch deletion match `Attempt` |
| GitSave.SaveRefusesBatch | src/app-save.ts:22-29 | no git command at all exactly when a path repeats or an item is already recorded; duplicates report `DuplicatedFilePaths`, otherwise the first recorded item's path is reported |
| GitSave.SaveAsksGit | src/app-save.ts:36 | a batch passing both checks first asks git whether the directory is a repository |
| GitSave.SaveChecksRepoFirst | src/app-save.ts:36-45 | a non-repository, a dirty tree or a missing current branch fails the save within the three queries, before the work branch is created or deleted |
| GitSave.SaveSucceeds | src/app-save.ts:36-72 | success means both checks and the three repository checks passed, and the trace is the three queries, the whole try block and the deletion |
| GitSave.SaveCommitsEveryEntry | src/app-save.ts:51-61 | on success, entry `i` is written, added, dated and committed at trace positions `4+4i..8+4i` |
| GitSave.SaveWritesEntry | src/app-save.ts:54-60 | the same four steps, one by one, with the entry's path, content, date and subject |
| GitSave.SaveWithoutFaults | src/app-save.ts:11-74 | when git rejects nothing and all checks pass, the save succeeds |
| GitSave.SaveAlwaysDeletesWorkBranch | src/app-save.ts:47-72 | once git was asked more than the three queries, the trace is the queries and the work-branch checkout, and it ends with the work-branch deletion |
| GitSave.SaveReportsRejectedStep | src/app-save.ts:47-72 | a failed step's reported position is in the trace and git rejected it there |
| GitSave.SaveRollsBack | src/app-save.ts:67-69 | when the try block stops early, the current branch is checked out again right before the work branch is deleted |
| GitSave.SaveMergesAfterCommits | src/app-save.ts:63-66 | a merge occurs only after the whole try block up to it (branch, all commits, checkout) was issued |
| GitSave.AttemptTrace | src/app-save.ts:67-72 | the trace after a failure is the steps up to the rejection, the rollback checkout and the deletion |
| GitSave.AttemptReportsRejectedStep | src/app-save.ts:67-72 | a failure names a position of the try/catch/finally trace at which git rejected the step: the rollback checkout or the deletion when they fail (the literal `.catch()`), otherwise the try block's |
| GitSave.TryStepsAt | src/app-save.ts:51-61 | the loop's steps per entry: write, add, author date, commit |
| GitSave.TryStepsEnds | src/app-save.ts:49-66 | the try block opens with `checkoutBranch(workBranch, "HEAD")` and ends with the checkout and the merge with the fixed message |
| AppSave.EntriesOf | src/app-save.ts:22-54 | one pipeline entry per commit, keyed and written at `commitToFilePath` |
| AppSave.SaveSubmissions | src/app-save.ts:11-74 | the result and git trace are those of the pipeline over the commits' entries |
| AppSave.DuplicatePathRefused | src/app-save.ts:22-24 | two commits with the same path stop the save before any git command |
| AppSave.CaseVariantsRefused | src/app-save.ts:22-24 | identifiers differing only in case collide and are refused |
| AppSave.CommittedRefused | src/app-save.ts:25-29 | an already committed submission stops the save before any git command, naming the path of the first committed submission, none before it being committed |
| AppSave.SavedInOrder | src/app-save.ts:51-61 | on success commit `i` is written at its path, added, dated and committed with its subject, in input order |
| Infra.ApiResultsInjective | src/infra.ts:10-11 | the results URL determines the user |
| Infra.RetrieveThenHit | src/infra.ts:26-40 | after a successful retrieve the file exists, so a second call is a hit that returns the normalised content without calling its creator |
| Infra.RetrieveWritesOnlyItsFile | src/infra.ts:26-40 | only the target file can change, it changes exactly on a new retrieval, and then it holds the returned content after exactly the creator's effects |
| Infra.RealRepo.CacheFile | src/infra.ts:54-59 | the cache file is `cachePath(key, workDir)` |
| Infra.RealRepo.PauseMs | src/infra.ts:61 | the pause is the larger of 100 ms and `delayMs` |
| Infra.RealRepo.CacheOrRetrieve | src/infra.ts:26-40 | the result, files and effects of `CacheOrRetrieveOutcome` |
| Infra.RealRepo.Fetch | src/infra.ts:58-65 | a hit returns the normalised file with no effect; a miss pauses `max(100, delayMs)`, requests once, and stores the normalised answer |
| Infra.RealRepo.AllSubs | src/infra.ts:67-70 | a cached `results_<user>.json` is returned normalised with no effect and no write; otherwise one pause and one request to the results API, whose answer is normalised, cached and returned, or a fetch failure naming the URL with nothing written |
| Infra.RealRepo.FetchSubmissionHtml | src/infra.ts:72-74 | a page cached under the submission id is returned normalised with no effect and no write; otherwise one pause and one request to `url`, whose answer is normalised, cached and returned, or a fetch failure naming the URL with nothing written |
| Infra.RealRepo.Exists | src/infra.ts:76-78 | true exactly when the resolved path is present |
| Infra.RealRepo.Entries | src/infra.ts:84-91 | entries keyed by the relative path, written at the resolved path, recorded when that file exists |
| Infra.RealRepo.Save | src/infra.ts:80-136 | the result and git trace of the shared pipeline over this repository's entries |
| Infra.RealRepo.SaveChecksFirst | src/infra.ts:84-91 | a duplicate path or an existing file fails the save before any git command; a duplicate reports `DuplicatedFilePaths`, otherwise the first commit whose file exists is named |
| Infra.FetchTwice | src/infra.ts:58-65 | when the first fetch of a key succeeds or hits, the two fetches ask the network at most once; after a successful miss the second answer is the cached one normalised again, after a hit it repeats the first |
| Infra.LocalSaveSucceeds | src/infra.ts:159-166 | `LocalRepo.save` succeeds iff the paths are distinct and none is present |
| Infra.LocalSaveStores | src/infra.ts:164 | after success each path maps to its commit, old entries are kept, nothing else is added |
| Infra.LocalSaveNotAtomic | src/infra.ts:159-166 | a failure keeps everything stored before the first clashing commit and names its path |
| Infra.LocalRepo.FetchSubmissionHtml | src/infra.ts:140-153 | always the dummy page |
| Infra.LocalRepo.Exists | src/infra.ts:155-157 | true exactly when a commit with that path was saved |
| Infra.LocalRepo.Save | src/infra.ts:159-166 | the loop's result and map are those of `LocalSave` |
| Infra.SaveThenExists | src/infra.ts:155-166 | after a successful save every saved path exists and maps to its commit |

## Left out

- src/exts.ts (the language table) is not part of this model: `ExtFromLang` and `BuildExtMap` take the table as a parameter.
- src/types.ts is represented by the datatypes in `Types`. Its `Commit` (with `filePath`) and the `submissionIdentifier` commit used by src/app-save.ts and src/infra-files.ts are two separate records.
- src/index.ts (wiring, env.json) and the test harness are not part of this model.
- HTML scraping with cheerio is an `extract` parameter.
- `JSON.parse` is left out: `InfraAtcoder` starts from a parsed `Json` value, and `Infra.RealRepo.AllSubs` returns the cached text.
- HTTP requests are a `respond`/`doFetch` oracle, where `None` stands for a rejection.
- `fs` and `path.join` are modelled as a map from paths to contents. Paths are joined with `/` and not normalised.
- Infra.RealRepo.CacheOrRetrieve, Infra.RealRepo.Fetch and InfraHttp.FetchLayer.FetchHtml: a cache write (`mkdir` and `writeFile`) and the injected delay never reject in the model, so a fetch whose request succeeded is not shown failing on its write or its pause.
- Strings are sequences of Unicode scalar values. Lone surrogates, which JavaScript strings may hold and `Buffer.from` encodes as U+FFFD, are outside the model, so `InfraHttp.UrlToCacheKeyInjective` is not claimed for URLs holding them.
- Console logging is left out.
- Real timers are left out: a delay is a recorded `Wait`/`Pause` effect with its duration.
- The time zone is the oracle `zone`, which returns what the `Date` getters report.
- uuid randomness is the `uuid` parameter.
- GitSave.WorkBranch: the model does not prove the work branch differs from the current branch, because that rests on uuid randomness.
- `g.env(gitEnvs)` is not modelled. `GIT_AUTHOR_DATE` is a `SetAuthorDate` step that never rejects, because `g.env` is synchronous.
- What git does to its object graph (commit, merge, branch deletion) is not modelled. Whether a command rejects is the `faults` set of trace positions, so no claim is made about a merge commit.
- The working-tree file writes of the save pipeline appear only as `WriteFile` steps in the trace.
- `isSubmissionCommitted` and `exists` are asynchronous in the source but are modelled as pure predicates. Nothing changes them during one save or one search.
- LocalRepo.allSubs, which reads tests/results.json, is left out. So is the atcoder-fetch test's count of four records in that file.
- Numbers are integers; fractional points and execution times are left out.
- `toLowerCase` is modelled on ASCII letters only.
- Utils.NormalizeEOLSinglePass: idempotence of `normalizeEOL` and the absence of `"\r\n"` in its result are not claimed, because they do not hold.
- App.UnexistingItems: when `exists` is not true on a prefix, only the suffix shape, its cut and the call bound are stated, since the source promises nothing more there.
