# Forgejo generic-package upload step, modelled in Dafny

The program is a Reeve CI pipeline step. It uploads files as artifacts of a
Forgejo "generic" package version. It does the following, in order:

1. It checks that it runs inside a pipeline (`REEVE_API` is set).
2. It splits `FILES` into glob patterns, expands each one, removes repeated
   paths keeping the first occurrence, and sorts the result.
3. It checks that the registry URL, credentials and package coordinates are
   all set.
4. When `SKIP_EXISTING` is `true`, it asks the registry which file names the
   version already holds. A 404 answer means there are none.
5. It walks the sorted files. For each one it computes the artifact name,
   which is the base name with every run of characters outside
   `[-.+a-zA-Z0-9]` replaced by one `_`. An existing name is skipped.
   Otherwise the file is uploaded. The first upload that does not answer
   201 ends the run with exit status 1. If no upload fails, the program
   prints "Done".

The model has one module per concern:

| file | module | what it holds |
|---|---|---|
| `outcomes.dfy` | `Outcomes` | `Option` and `Result` |
| `ordering.dfy` | `Ordering` | Go's byte-wise string order and `sort.Strings` as a function with its properties |
| `dedupe.dfy` | `Dedupe` | `distinct`: a specification function `Dedup` and the loop `Distinct` proved against it |
| `naming.dfy` | `Naming` | `path.Base`, the `nameRegex` replacement `Sanitize`, and their composition `TargetName` |
| `registry.dfy` | `Registry` | the existing-name query: `Existing`, and the map-filling loop `CollectNames` |
| `upload.dfy` | `Upload` | the skip/upload/abort loop: the specification `Plan`, the loop `UploadAll`, and their lemmas |
| `publish.dfy` | `Publish` | the whole of `main`: `Outcome` as a function, `Run` as a method, and end-to-end lemmas |

The outside world is handed in as values. The environment is a record of
strings. The pattern list arrives already split: `None` stands for a split
error. Globbing is a function from pattern to matches or error. The registry's
list answer is a value. The answer to each upload is a function from file
path to response. Every `os.Exit(1)` becomes a `Fatal` value in the returned
`Report`.

The specification functions and predicates below carry no contract of
their own (or only a small one). Each is the model of the cited source and is
characterised by the lemmas and methods named beside it in the "## Model"
table.

| function | source | characterised by |
|---|---|---|
| `Ordering.Less` | main.go:41 (Go's string `<`) | `LessIrreflexive`, `LessTransitive`, `LessTotal`, `LessAsymmetric`, `LessCommonPrefix` |
| `Naming.IsAllowed` | main.go:17 (the class `[-.+a-zA-Z0-9]`) | `Sanitize`, `SanitizeKeepsAllowed`, `AllowedNameUnchanged` |
| `Dedupe.Dedup` | main.go:180-190 | `DedupSameElements`, `DedupNoDuplicates`, `DedupFirstOccurrenceOrder`; `Distinct` computes it |
| `Registry.Contains` | main.go:121 (lookup in the possibly nil map) | `Upload.StepFor`, `Upload.NoSkipWithoutExisting` |
| `Upload.Plan` | main.go:118-150 | `PlanFollowsFiles`, `PlanStopsAtFirstFailure`, `PlanCompletedIff`, `PlanCompletedIffLastGoesOn`, `PlanAppend`; `UploadAll` computes it |
| `Publish.Expand` | main.go:31-39 | `ExpandContents`, `ExpandPrefixError` |
| `Publish.Resolve` | main.go:31-41 | `ResolvedFilesSorted`; `ResolveFiles` computes it |
| `Publish.Prepare` | main.go:20-116 | `NoSkipWithoutExistingSet`, `ListFailureStopsBeforeUploads`; `Preflight` computes it |
| `Publish.Conclude` | main.go:146-177 | `OutcomeDoneIff` |
| `Publish.Outcome` | main.go:19-178 | `OutcomeDoneIff`, `OutcomeFollowsSortedFiles`, `TwoFilesInSortedOrder`; `Run` computes it |

`Upload` takes the naming rule as a parameter (`naming: string -> string`), so
its lemmas hold for any rule. `Publish` instantiates that parameter with
`Naming.TargetName`.

## Model

| member | source | states |
|---|---|---|
| Ordering.Insert | main.go:41 | inserting into a sorted list keeps it sorted, adds exactly one copy of the element, and puts it first or keeps the old head |
| Ordering.SortStrings | main.go:41 | the result is sorted in Go's string order and is a permutation of the input |
| Ordering.LessCommonPrefix | main.go:41 | a shared prefix does not change the order of two strings |
| Ordering.SortedDistinctIsStrictlyIncreasing | main.go:40-41 | a sorted list without repeats is strictly increasing |
| Ordering.SortKeepsNoDuplicates | main.go:40-41 | sorting a list without repeats gives a list without repeats |
| Dedupe.FirstIndex | main.go:183-184 | the index of the first copy of an element: it holds the element and no earlier index does |
| Dedupe.DedupSameElements | main.go:180-190 | `distinct` keeps exactly the elements of its input and never makes the list longer |
| Dedupe.DedupNoDuplicates | main.go:180-190 | the result of `distinct` has no repeats |
| Dedupe.DedupFirstOccurrenceOrder | main.go:180-190 | kept elements appear in the order of their first occurrence in the input |
| Dedupe.Distinct | main.go:180-190 | the loop with its key set computes `Dedup` of the input: no repeats, the same elements, no longer than the input |
| Naming.DisallowedRun | main.go:17 | the length of the maximal leading run of characters outside `[-.+a-zA-Z0-9]` |
| Naming.Sanitize | main.go:17 | the replaced name has only allowed characters and `_`, never `__`, is empty only for an empty name, is no longer than the name, and starts with the name's first character or `_` |
| Naming.ConsSanitized | main.go:17 | a character followed by a sanitised name is sanitised exactly when the character is allowed or is an `_` not followed by another `_` |
| Naming.SanitizeIsSqueezedMask | main.go:17 | the replacement equals the independent reading "mask every disallowed character as `_`, then merge each run of `_`" |
| Naming.SanitizeKeepsAllowed | main.go:17 | the allowed characters of the name all survive, in order, and no others are added |
| Naming.SanitizeFixedPoints | main.go:17 | a name is left unchanged exactly when it is already in sanitised shape |
| Naming.SanitizeIdempotent | main.go:17 | replacing twice is the same as replacing once |
| Naming.AllowedNameUnchanged | main.go:17 | a name made only of allowed characters is left unchanged |
| Naming.SanitizeAllowedPrefix | main.go:17 | a leading block of allowed characters is copied unchanged |
| Naming.SanitizeRunPrefix | main.go:17 | a leading maximal run of disallowed characters becomes a single `_` |
| Naming.RunLengthOf | main.go:17 | a disallowed block followed by an allowed character is a run of exactly that length |
| Naming.SanitizeExample | main.go:119 | "report v1.2!.txt" becomes "report_v1.2_.txt" |
| Naming.TrimTrailingSlashes | main.go:119 | a prefix of the path that does not end in `/`, and only slashes were removed |
| Naming.LastSegment | main.go:119 | the slash-free suffix after the last `/` |
| Naming.Base | main.go:119 | `path.Base` is never empty and contains a `/` only when it is exactly "/" |
| Naming.BaseOfJoin | main.go:119 | the base of `dir/name`, with or without trailing slashes, is `name`, and so is the base of `name` alone |
| Naming.TrimJoin | main.go:119 | trailing slashes after a name are removed and nothing else is |
| Naming.LastSegmentJoin | main.go:119 | the last segment after a `/` is the name that follows it |
| Naming.TargetName | main.go:119 | the artifact name is non-empty and in sanitised shape |
| Naming.TargetNameOfJoin | main.go:119 | a file under a directory is uploaded under its own name when that name has only allowed characters |
| Registry.Existing | main.go:79-116 | the set is present exactly after a 200 answer that decodes, and then holds exactly the listed names; it is absent exactly when skipping is off or the answer is 404; a failed request, any other status and an undecodable body are each fatal |
| Registry.CollectNames | main.go:111-114 | the loop's map holds exactly the decoded names |
| Registry.FetchExisting | main.go:81-116 | the query step returns `Existing` of its inputs |
| Upload.StepFor | main.go:119-149 | one iteration works on its file under `naming(file)`; it skips exactly when that name exists; it fails exactly when the file is not skipped and the upload did not answer 201, and then it records that answer |
| Upload.PlanFollowsFiles | main.go:118-150 | step k is about file k under its target name; no more steps than files; skip exactly when the name exists; success means 201; failure records the answer |
| Upload.PlanStopsAtFirstFailure | main.go:146-149 | only the last step can fail, and if the steps stop before the end of the list the last one failed |
| Upload.PlanCompletedIff | main.go:118-150 | the loop completes exactly when every file that is not skipped gets 201 |
| Upload.PlanCompletedIffLastGoesOn | main.go:118-150 | the loop completes exactly when its last step, if any, did not fail |
| Upload.NoSkipWithoutExisting | main.go:121 | with the nil map, nothing is skipped |
| Upload.PlanAppend | main.go:118 | when no step over a prefix fails, the loop over a list is the loop over the prefix followed by the loop over the rest |
| Upload.PlanOfTwo | main.go:118-150 | with two files and no existing names, the first is always tried, the second only after a 201, and the loop completes exactly when both answer 201 |
| Upload.UploadAll | main.go:118-150 | the loop takes exactly the steps of `Plan`, and reports success exactly when every file that is not skipped got 201, which is when the last step did not fail |
| Publish.FirstMissing | main.go:43-77 | none is missing exactly when every required setting is non-empty; otherwise the result is the first empty one in checking order |
| Publish.ExpandContents | main.go:31-39 | expansion succeeds exactly when every pattern expands; it then holds exactly the matched paths; otherwise it names the first failing pattern |
| Publish.ExpandPrefixError | main.go:32-37 | once a prefix of the patterns fails, the whole list fails with the same pattern |
| Publish.ResolvedFilesSorted | main.go:40-41 | the resolved list is strictly increasing and holds exactly the matched paths |
| Publish.ResolveFiles | main.go:31-41 | the expansion loop, followed by `distinct` and sorting, computes `Resolve` |
| Publish.Preflight | main.go:20-116 | the phases before the upload loop, in the code's order, compute `Prepare` |
| Publish.Run | main.go:19-178 | the program's run is `Outcome` of its inputs |
| Publish.OutcomeDoneIff | main.go:118-177 | the run ends in "Done" exactly when every phase before the loop succeeds and every file that is not skipped gets 201 |
| Publish.OutcomeFollowsSortedFiles | main.go:40-150 | files are handled one at a time in strictly increasing order under their target names; a file is skipped exactly when its name exists; nothing follows a failure |
| Publish.ListFailureStopsBeforeUploads | main.go:95-100 | a list answer other than 200 or 404 ends the run before any upload |
| Publish.NoSkipWithoutExistingSet | main.go:79-121 | when skipping is off, or the version does not exist yet (404), the loop is reached and nothing is skipped |
| Publish.RepeatedPatternResolvesOnce | main.go:31-41 | the same pattern given twice resolves its file once |
| Publish.ResolveSwapped | main.go:40-41 | two paths matched out of order come out sorted |
| Publish.TwoFilesInSortedOrder | main.go:40-177 | one pattern matching two files out of order: the smaller is handled first, the larger only after a 201, and the run ends in "Done" exactly when both answer 201 |
| Publish.FixtureNames | main.go:41-119 | "fixtures/a.bin" sorts before "fixtures/b.bin", and they upload as "a.bin" and "b.bin" |
| Publish.FixturesExample | main.go:40-177 | files matched as b.bin then a.bin upload as "a.bin" then "b.bin", and the run ends in "Done" exactly when both answer 201 |
| Publish.ListedFileSkipped | main.go:119-124 | "out/report.txt" is skipped when "report.txt" is listed, and the loop goes on with the next file |

## Left out

- Environment reads are a record of strings. Only whether each setting is empty matters, and `SKIP_EXISTING` is compared with "true" (main.go:79).
- The values of `API_URL`, the credentials and the package coordinates are not modelled. Neither are the request URLs built from them or `url.PathEscape`. No property of the model depends on them.
- Shell-word splitting of `FILES` (shlex) is not part of this model. Its result is an input, and `None` stands for a split error.
- Glob expansion (doublestar) is not part of this model. Its result is a function from pattern to matches or error.
- HTTP requests, opening the upload files and JSON decoding are not part of this model. The list query's result is a `ListResponse` value. Each upload's result is the `put` function: open failure, request or transport error, or a status code. The response body is not closed, because closing does not affect the outcome.
- The messages printed to standard output are not modelled. The `Fatal` value names the condition each message reports.
- The repository-link step (main.go:152-175) is commented out in the code, so it is not modelled.
- `Ordering.SortStrings` gives the ordered result of `sort.Strings` through an insertion sort, not Go's algorithm. The sorted permutation of a list is unique, so the result is the same.
- Strings are sequences of Unicode characters rather than bytes. Go compares strings byte by byte, and UTF-8 keeps code point order, so the order agrees. Each non-ASCII character lies outside the allowed class, so a multi-byte character falls inside one disallowed run either way. Invalid UTF-8 is not modelled.
- `distinct` is generic in the code. `Dedupe.Distinct` is generic too, but only strings are passed to it.
- The ordering of checks follows the code: it checks `REEVE_API` first, then splits and expands `FILES` (failing on a bad pattern), and only then checks the registry settings (main.go:20-77).
