# merge-gatekeeper job-status core, in Dafny

merge-gatekeeper is a GitHub Action that holds a pull request until every other
job on the same commit has finished successfully. This project models its core
and proves properties about it:

- **The status validator** (`internal/validators/status`). One evaluation pass:
  - reads the commit's combined status and its check runs through the GitHub client;
  - merges them into one list of `(job, state)` pairs: the first entry with a name wins, and skipped check runs are dropped;
  - leaves out the self job and the ignored jobs;
  - splits the rest into total, complete and failed jobs;
  - returns either a report (`status`), or an error whose message is the report's `Detail()`.
- **Construction of the validator**: the functional options (`WithSelfJob`, `WithGitHubOwnerAndRepo`, `WithGitHubRef`, `WithIgnoredJobs`) and the field check of `CreateValidator`.
- **The composite error type**: `multierror.Errors`, and its verbatim copy in `internal/errors`.
- **The `validate` command's logic**: splitting `owner/repo`, the verdict on one validator, one tick of the polling loop, and the loop over an abstract sequence of events.
- **`RetryTransport.RoundTrip`**: the attempt and back-off loop.

Files:

| file | module | contents |
|---|---|---|
| `common.dfy` | `Common` | `Option`, `Result`, and Go `error` values (nil or a message) |
| `gostrings.dfy` | `GoStrings` | `strings.Split`/`Join` on one character, `TrimSpace`, decimal printing of lengths |
| `multierror.dfy` | `MultiError` | `Errors.Error()` (a loop) and `Errors.Is` |
| `errs.dfy` | `Errs` | the `errs` copy in `internal/errors` |
| `status_report.dfy` | `StatusReport` | the `status` record, `IsSuccess`, `Detail` |
| `reconcile.dfy` | `Reconcile` | an evaluation pass as functions: the merge (`listGhaStatuses`) and the aggregation (`Validate`) |
| `status_options.dfy` | `StatusOptions` | the options as values and the configuration a sequence of them leaves |
| `status_validator.dfy` | `Validator` | class `StatusValidator` with methods proved against the two modules above, plus the client and `CreateValidator` |
| `cli.dfy` | `Cli` | `ownerAndRepository`, `validate`, one tick, and the polling loop |
| `retry.dfy` | `Retry` | `RoundTrip` |

How the parts map onto the source:

- **The validator object.** `statusValidator` is a Dafny class whose fields match the Go struct.
  - Each option closure is a method that updates the fields.
  - `listGhaStatuses` and `Validate` are methods with the source's loops. Each loop is its own method: `MergeStatuses` and `MergeRuns` for the two listings, and `MatchesIgnored` for the search of the ignored list.
    - Their invariants tie the partial results to `Reconcile.Dedup` and `Reconcile.Aggregate`.
  - `Name` is the function `StatusValidator.Name`.
- **The GitHub client** is a class. Each listing call answers with a fixed response, and a ghost log records the calls made. This lets the model state when the check runs are requested.
- **Errors on failure paths** have the type `Common.NonNilError`. The client's errors and the context's `Err()` are never nil where the source returns them.
- **The nil-conclusion panic.** A completed check run whose conclusion is nil makes the source panic. This is the precondition `NoNilConclusion`.

## Model

| member | source | states |
|---|---|---|
| MultiError.Message | internal/multierror/multierror.go:10-25 | the text of a list of errors: "" for none, the `%v` text of the only one (including "<nil>"), otherwise the header and one indented line per non-nil error |
| MultiError.Error | internal/multierror/multierror.go:10-25 | the message is "" for no errors, the one error's `%v` text for one, and otherwise "composite error:" followed by one line per non-nil element |
| MultiError.LinesListNonNilInOrder | internal/multierror/multierror.go:18-24 | the composite lines are exactly the messages of the non-nil elements, in order, each after "\n\t"; nil elements add nothing |
| MultiError.CompositeMessage | internal/multierror/multierror.go:18-24 | for two or more errors, the message is the header followed by the indented non-nil messages |
| MultiError.MessageAppend | internal/multierror/multierror.go:19-23 | appending an error to a list of two or more adds one line if it is non-nil, and nothing if it is nil |
| MultiError.Is | internal/multierror/multierror.go:27-38 | true iff some element matches the target; false on an empty list |
| Errs.Error | internal/errors/errors.go:10-25 | the copy gives "" for no errors, the one message for one, and otherwise the header plus the indented non-nil messages |
| Errs.Is | internal/errors/errors.go:27-38 | true iff some element matches the target |
| StatusReport.IsSuccess | internal/validators/status/status.go:41-44 | a report's success is its `succeeded` flag |
| StatusReport.Detail | internal/validators/status/status.go:13-39 | the summary text: the counts line, the three counted lists, and the ignored-jobs section when that list is non-empty |
| StatusReport.QuoteList | internal/validators/status/status.go:18-22 | a printed list is bracketed |
| StatusReport.Lists | internal/validators/status/status.go:15-23 | the block after the opening line starts and ends with a newline |
| StatusReport.DetailOpensWithCounts | internal/validators/status/status.go:14-28 | `Detail` opens with the complete count, " out of ", the total count, and then a new line |
| StatusReport.DetailDeterminesCounts | internal/validators/status/status.go:14-28 | two statuses with the same `Detail` have the same complete and total counts |
| StatusReport.DetailIgnoredSection | internal/validators/status/status.go:30-36 | the ignored-jobs section is there iff the ignored list is non-empty; when it is, `Detail` is the summary without it followed by the section |
| StatusReport.DetailIgnoresSucceeded | internal/validators/status/status.go:13-39 | `Detail` does not depend on `succeeded` |
| Reconcile.Dedup | internal/validators/status/validator.go:152-203 | the first-seen merge of the entries: each kept only when no earlier entry had its name, its state from `Outcome`, skipped check runs dropped with their name still counted as seen |
| Reconcile.ListGhaStatuses | internal/validators/status/validator.go:144-206 | a listing call's error is passed on, a malformed status or run fails the call, and otherwise the result is the merge of the combined statuses followed by the check runs |
| Reconcile.ListGhaStatusesSuccess | internal/validators/status/validator.go:144-206 | on success, both listings arrived and were well-formed, and the result is the first-seen merge of their entries |
| Reconcile.NamesMembership | internal/validators/status/validator.go:159-162 | a name is in the seen set after some entries iff one of those entries has that name |
| Reconcile.FirstAtIff | internal/validators/status/validator.go:159-162 | an entry is kept as first-seen iff no earlier entry has its name |
| Reconcile.DedupDistinct | internal/validators/status/validator.go:152-162 | the merged names are pairwise distinct and all come from the input |
| Reconcile.DedupMembership | internal/validators/status/validator.go:154-203 | a pair is in the merge iff the first entry with that name gives that state, and it is not a skipped run |
| Reconcile.DedupPrefix | internal/validators/status/validator.go:164-202 | the merge of a prefix of the entries is a prefix of the merge, so output order follows input order |
| Reconcile.ListGhaStatusesFirstWins | internal/validators/status/validator.go:152-182 | the output names are distinct; a pair is in the output iff the first entry with that name (combined statuses before check runs) gives that state |
| Reconcile.CombinedStatusesComeFirst | internal/validators/status/validator.go:154-168 | the output begins with the de-duplicated combined statuses, in input order |
| Reconcile.CombinedJobsVerbatim | internal/validators/status/validator.go:155-168 | a combined pair is kept iff it is the first status with that context, and its state is copied verbatim |
| Reconcile.FirstCheckRunClassified | internal/validators/status/validator.go:184-202 | for a check run that is first with its name: not completed gives "pending"; neutral or success gives "success"; skipped is dropped; any other conclusion gives "error" |
| Reconcile.MalformedEntryFailsWholeCall | internal/validators/status/validator.go:145-177 | a client error is returned unchanged; a malformed combined status or check run fails the whole call, even when it is a duplicate |
| Reconcile.Aggregate | internal/validators/status/validator.go:106-131 | the loop's lists and tally: excluded jobs only counted as successes, other jobs added to totalJobs and, by state, to completeJobs (and counted) or errJobs |
| Reconcile.ValidateResult | internal/validators/status/validator.go:93-142 | `Validate`'s result: the listing error, or an error carrying `Detail` when some job failed, or the report, marked unsuccessful when the tally falls short of the number of jobs |
| Reconcile.AggregateMembership | internal/validators/status/validator.go:107-130 | excluded names (the self job, or equal to a trimmed ignored entry) never appear in the lists; others are in total, in complete iff "success", in err iff "error" or "failure" |
| Reconcile.AggregateTotalJobs | internal/validators/status/validator.go:107-130 | a name is in totalJobs iff some entry has it and it is not excluded |
| Reconcile.AggregateCompleteJobs | internal/validators/status/validator.go:107-130 | a name is in completeJobs iff it is not excluded and some entry with it is "success" |
| Reconcile.AggregateErrJobs | internal/validators/status/validator.go:107-130 | a name is in errJobs iff it is not excluded and some entry with it is "error" or "failure" |
| Reconcile.AggregateSublists | internal/validators/status/validator.go:122-130 | completeJobs and errJobs are order-preserving sub-lists of totalJobs |
| Reconcile.AggregateTally | internal/validators/status/validator.go:117-128 | successCnt + len(total) = number of jobs + len(complete) |
| Reconcile.AggregateDisjoint | internal/validators/status/validator.go:124-130 | with distinct names, no job is both complete and failed |
| Reconcile.ValidateVerdict | internal/validators/status/validator.go:132-141 | a listing error is passed on; any failed job gives an error carrying the partial report's `Detail`; otherwise the report has no failed jobs and succeeded iff every counted job is complete |
| Reconcile.ValidateSucceededInvariant | internal/validators/status/validator.go:132-141 | a returned report is successful iff it has no failed jobs and as many complete jobs as total jobs |
| Reconcile.ValidateNoJobs | internal/validators/status/validator.go:99-141 | no jobs gives a successful report with empty lists |
| Reconcile.ValidateListsDisjoint | internal/validators/status/validator.go:107-130 | on a merged listing, completeJobs and errJobs are disjoint |
| StatusOptions.IgnoredJobList | internal/validators/status/option.go:41-49 | the list a non-empty argument sets: the comma-separated pieces, trimmed, empty ones dropped, order kept |
| StatusOptions.Apply | internal/validators/status/option.go:7-52 | one option's effect on the fields: a non-empty argument replaces its own field (the ignored list by its parse), an empty one changes nothing |
| StatusOptions.ApplyAll | internal/validators/status/validator.go:54-56 | the options applied one after another, in the order given |
| StatusOptions.LastNonEmptyOfEmpties | internal/validators/status/option.go:9-11 | when every argument is empty, the field keeps its starting value |
| StatusOptions.LastNonEmptyIs | internal/validators/status/option.go:9-11 | a non-empty argument followed only by empty ones is the value the field ends with |
| StatusOptions.ApplyAllLastNonEmptyWins | internal/validators/status/option.go:7-52 | after a sequence of options, each field holds the last non-empty value given for it (or its old value), the ignored list is the parse of the last non-empty argument, and no option touches another option's field |
| StatusOptions.NonEmptyTrimmedFrom | internal/validators/status/option.go:43-49 | each listed name is non-empty and is the trimmed form of some piece |
| StatusOptions.NonEmptyTrimmedHas | internal/validators/status/option.go:43-49 | every piece whose trimmed form is non-empty contributes that form |
| StatusOptions.IgnoredJobsAreClean | internal/validators/status/option.go:41-50 | every ignored name is non-empty, trimmed and comma-free |
| StatusOptions.IgnoredJobsFromPieces | internal/validators/status/option.go:41-50 | a name is listed iff it is the non-empty trimmed form of a comma-separated piece |
| StatusOptions.IgnoredJobsRoundTrip | internal/validators/status/option.go:41-50 | clean names joined with commas parse back to the same list |
| StatusOptions.IgnoredJobsEdgeCases | internal/validators/status/option.go:37-50 | "" leaves the list untouched; "," sets an empty, non-nil list |
| Validator.Client.GetCombinedStatus | internal/validators/status/validator.go:145 | answers with the combined-status response and logs the request |
| Validator.Client.ListCheckRunsForRef | internal/validators/status/validator.go:170 | answers with the check-run response and logs the request |
| Validator.FieldErrorsReportMissingFields | internal/validators/status/validator.go:67-91 | the check reports each missing field (repository, owner, ref, self job, client) and only those; it passes iff all are set |
| Validator.FieldErrorsInFieldOrder | internal/validators/status/validator.go:67-84 | the errors appear once each, in the order repository, owner, ref, self job, client |
| Validator.CompleteOptionsPass | internal/validators/status/validator.go:50-61 | owner, repository, ref and self job given non-empty, plus a client, pass the field check |
| Validator.NothingSetReportsEverything | internal/validators/status/validator.go:67-84 | with no options and no client, all five errors are reported, in field order |
| Validator.StatusValidator.constructor | internal/validators/status/validator.go:51-53 | a new validator holds only the client; every other field is empty or nil |
| Validator.StatusValidator.Name | internal/validators/status/validator.go:63-65 | a validator's name is its self job name |
| Validator.StatusValidator.ApplySelfJob | internal/validators/status/option.go:7-13 | a non-empty name replaces the self job name; "" changes nothing |
| Validator.StatusValidator.ApplyOwnerAndRepo | internal/validators/status/option.go:15-24 | owner and repository are each replaced only by a non-empty argument, independently |
| Validator.StatusValidator.ApplyRef | internal/validators/status/option.go:26-32 | a non-empty ref replaces the ref; "" changes nothing |
| Validator.StatusValidator.ApplyIgnoredJobs | internal/validators/status/option.go:34-52 | "" changes nothing; otherwise the loop's list of trimmed, non-empty comma pieces replaces the ignored list |
| Validator.StatusValidator.ApplyOption | internal/validators/status/option.go:5 | applying an option changes the fields exactly as that option specifies |
| Validator.StatusValidator.ValidateFields | internal/validators/status/validator.go:67-91 | returns the errors for the missing fields of this validator |
| Validator.StatusValidator.ListGhaStatuses | internal/validators/status/validator.go:144-206 | the two loops compute the first-seen merge; the combined status is requested first, and the check runs only if it arrived well-formed |
| Validator.MergeStatuses | internal/validators/status/validator.go:152-168 | stops at the first malformed combined status; otherwise the seen names and the first-seen merge of the statuses |
| Validator.MergeRuns | internal/validators/status/validator.go:175-203 | stops at the first malformed check run; otherwise continues the merge through the runs, so the result is the merge of all entries |
| Validator.MatchesIgnored | internal/validators/status/validator.go:108-114 | true iff the job equals some whitespace-trimmed ignored entry |
| Validator.StatusValidator.Validate | internal/validators/status/validator.go:93-142 | the loop with the inner ignored-job search computes the aggregation of the merged list, and the pass's verdict follows |
| Validator.CreateValidator | internal/validators/status/validator.go:50-61 | fails iff the field check of the configuration left by the options reports errors, and then returns exactly those errors; otherwise returns a fresh validator with that configuration |
| Cli.OwnerAndRepository | internal/cli/validate.go:74-86 | owner and repository from "owner/repo": by the number of '/'-separated pieces, the rest joined back with '/' |
| Cli.OwnerAndRepositorySplitsAtFirstSlash | internal/cli/validate.go:74-86 | "" gives ("", ""); a string without '/' is all owner; otherwise the owner has no '/' and owner + "/" + repo is the argument |
| Cli.ValidateOne | internal/cli/validate.go:130-144 | one validator's verdict: an error naming the validator when its `Validate` fails, otherwise ok iff its report succeeded |
| Cli.ValidateOneVerdicts | internal/cli/validate.go:130-144 | an error comes exactly from a failing `Validate`, with the validator's name and the error's text; otherwise ok is the report's success |
| Cli.TickVerdict | internal/cli/validate.go:110-126 | a tick's outcome over the validators in order: the first error, or success when all succeeded, or not yet |
| Cli.TickFailedPersists | internal/cli/validate.go:112-116 | once a validator errs, the later validators do not change the tick's error |
| Cli.TickVerdictIs | internal/cli/validate.go:111-126 | a tick fails iff some validator errs, and then with the first error; it succeeds iff every validator succeeds without error |
| Cli.Tick | internal/cli/validate.go:110-126 | the counting loop stops at the first error without running later validators; it otherwise ends in success iff the count equals the number of validators |
| Cli.EventResult | internal/cli/validate.go:105-126 | what one event makes the loop return: the context's error, "validation timed out", the tick's error or nil, or nothing when the tick is not yet successful |
| Cli.LoopResult | internal/cli/validate.go:104-127 | the loop after a sequence of events: the result of the first event that returns, or still running |
| Cli.DoValidate | internal/cli/validate.go:104-128 | the loop returns at the first decisive event with that event's result, and keeps running when there is none |
| Cli.LoopReturnedPersists | internal/cli/validate.go:104-127 | events after the loop has returned change nothing |
| Cli.LoopResultIsFirstDecisive | internal/cli/validate.go:104-127 | the loop returns iff some event is decisive (a cancellation, a time-out, a failed or fully successful tick), and then with the first one's result |
| Cli.EventResultNil | internal/cli/validate.go:105-126 | an event makes the loop return nil iff it is a tick in which every validator succeeded |
| Cli.LoopReturnsNilIffTickSucceeded | internal/cli/validate.go:104-127 | the loop returns nil iff its first decisive event is a tick in which every validator succeeded |
| Retry.RoundTrip | internal/github/retry_roundtripper.go:15-41 | at most retries+1 calls, none when retries < 0; earlier attempts were transport errors or 5xx; an early stop is at a final response; the last attempt's (response, error) is returned; the delay is 2^i s per 5xx on attempt i |
| Retry.BackoffOfServerErrors | internal/github/retry_roundtripper.go:28-31 | n consecutive 5xx answers cost 2^n - 1 seconds |
| Retry.AllServerErrorsDelay | internal/github/retry_roundtripper.go:21-35 | when all retries+1 attempts are 5xx, the delay is 2^(retries+1) - 1 ≥ 2^retries seconds |
| Retry.DelayFitsDuration | internal/github/retry_roundtripper.go:30 | the back-off of attempt i, 2^i seconds in nanoseconds, fits an int64 `time.Duration` up to attempt 33 and exceeds it from attempt 34 on |

## Left out

- Pagination: each listing is one call with empty options and no page loop, as in the source; the response is its first page.
- Real time, tickers and Go's `select` choice: the polling loop takes an abstract, ordered sequence of events; `time.Sleep` becomes a ghost total delay.
- `internal/ticker/ticker.go`: it is concurrent code and is not used by the loop.
- Logging and printing (`fmt.Println`, the logger, the `debug` helper).
- Closing response bodies.
- The escaping that `%+q` applies inside quoted names: `StatusReport.Quote` only adds the quotes.
- The text of the wrapped invalid-response errors (`%w context: %v, status: %v`): the model keeps only which error it is.
- `StatusError`'s texts in general: the command side (`Cli`) takes a validator's error as its text.
- Validator.StatusValidator.Validate: the partial report built on the error path has an empty ignored list. In the source the field is never assigned (nil), so `Detail` never prints the ignored section there either.
- Go's `int` overflow of the retry counter and of `successCnt`: integers are unbounded.
- Retry.RoundTrip: the delay is 2^i seconds per 5xx on attempt i with unbounded integers. The source computes it as an int64 `time.Duration` of nanoseconds, which overflows from attempt 34 on (`Retry.DelayFitsDuration`), so with 34 or more retries its later sleeps are not 2^i seconds.
- Retry.Backoff, Retry.BackoffOfServerErrors, Retry.AllServerErrorsDelay: the same unbounded seconds; they match the source only for attempts below 34.
- The panic on a completed check run with a nil conclusion: it is the precondition `NoNilConclusion`, not a behaviour.
- The request log of `Validator.Client` is ghost: it records calls and is not part of the source's state.
- These are not part of this model:
  - `internal/github/github.go`: a thin wrapper over the GitHub library.
  - `internal/cli/cli.go`, `validateCmd` (validate.go:29-72) and `cmd/*`: command-line wiring and process exit.
  - the mock clients, `internal/validators/validators.go` (interfaces only) and `status_test.go`.
- The validator interface is not a separate type: the command side takes each validator as its name and its `Validate` result (`Cli.ValidatorRun`).
