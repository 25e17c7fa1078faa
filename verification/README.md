# spiffe-helper sidecar: bookkeeping, fetch order and run modes

This project models, in Dafny, the sequential core of the spiffe-helper
sidecar, which keeps a workload's X.509 and JWT SVIDs fresh on disk by talking
to the SPIFFE Workload API:

- **Health bookkeeping** (`New`, `setupHealth`): a fresh sidecar records the
  status `"unwritten"` for the X.509 material when X.509 is enabled, and for
  every JWT resource (the JWT bundle file, each JWT SVID file), keyed by
  `path.Join(CertDir, filename)`.
- **One fetch cycle** (`fetchAllCredentials`): X.509, then the JWT bundle,
  then the JWT SVIDs; disabled steps are skipped and the first error ends the
  cycle.
- **Run modes** (`Run`, `RunDaemon`, `runParallelDaemon`): one fetch cycle or a
  burst of `ParallelRequests` cycles; in daemon mode either the parallel poll
  daemon alone or one watcher per enabled credential kind; the mapping of the
  task runner's error to the daemon's result.
- **Configuration helpers** (`countEmpty`, `validateX509Config`,
  `validateJWTConfig`, `mapKeysToString`, `NewSidecarConfig`).

Everything is a pure function over immutable datatypes, except four methods
whose loops mirror the source's loops (`MapKeysToString`,
`RunParallelDaemon`, `RunWorker`, and `RunParallelDaemonToShutdown`, which
runs the workers of `RunParallelDaemon` one after the other). Calls into the
Workload API, the disk writers and the task runners of the `util` package are not modelled: what they
return is an `Errors.Outcome` (nil or an error) passed in as a parameter.

Files:

- `errors.dfy` — Go `error` values (nil or not), wrapped errors, and
  `errors.Is(err, context.Canceled)`.
- `optional.dfy` — an optional value for Go's nil-able pointers.
- `strings.dfy` — `strings.Split`, `strings.Join`, Go's string order and
  sorting of distinct strings.
- `paths.dfy` — `path.Join` of two elements, with the lexical `path.Clean`.
- `sidecar.dfy` — module `Sidecar`, for pkg/sidecar/sidecar.go.
- `config.dfy` — module `HelperConfig`, for cmd/spiffe-helper/config/config.go.

The predicates `x509Enabled`, `jwtBundleEnabled` and `jwtSVIDsEnabled` are
called by sidecar.go but defined in a part of it that is not part of this
model. The model
defines them as "all three X.509 file names set", "JWT bundle file name set"
and "at least one JWT SVID configured". These are the same decisions
`validateX509Config` and `validateJWTConfig` make, and the lemmas
`HelperConfig.ValidatedX509MatchesSidecar` and
`HelperConfig.ValidatedJWTMatchesSidecar` prove that agreement.

## Model

| member | source | states |
|---|---|---|
| `Sidecar.New` | pkg/sidecar/sidecar.go:77-112 | After `New`, the X.509 status is present iff X.509 is enabled and is then "unwritten"; the JWT status keys are exactly `Join(CertDir, JWTBundleFilename)` when the bundle is enabled plus `Join(CertDir, f)` for every configured SVID file `f`; every JWT status is "unwritten" |
| `Sidecar.AddSVIDStatuses` | pkg/sidecar/sidecar.go:108-111 | The SVID loop adds exactly the SVID paths, sets each to "unwritten", and keeps every other entry (the bundle entry) with its value |
| `Sidecar.NewJWTEntryCount` | pkg/sidecar/sidecar.go:104-111 | `New` creates at most one JWT entry for the bundle plus one per configured SVID |
| `Sidecar.NewKeysPlainSVIDPath` | pkg/sidecar/sidecar.go:108-110 | For a clean certificate directory other than `.` and `/` (such as `/run/spire/certs`) and a plain file name, the SVID's status key is `certDir/filename` |
| `Sidecar.EnabledSteps` | pkg/sidecar/sidecar.go:216-243 | The steps a cycle may run are exactly the enabled ones, in the fixed order X.509, JWT bundle, JWT SVIDs |
| `Sidecar.AttemptStopsAtFirstFailure` | pkg/sidecar/sidecar.go:217-222 | One guarded step keeps a cycle consistent with "run the enabled steps in order and stop at the first failure": after a failure nothing more is attempted; a disabled step is skipped |
| `Sidecar.FetchAllCredentials` | pkg/sidecar/sidecar.go:216-245 | The steps attempted are a prefix of the enabled steps; all attempted steps but the last succeeded; the result is nil iff every enabled step succeeded, and then every enabled step was attempted; an error is the last attempted step's error |
| `Sidecar.FailedStepIsLast` | pkg/sidecar/sidecar.go:219-240 | If an enabled step fails and every enabled step before it succeeds, the cycle returns that step's error and attempts no step after it |
| `Sidecar.Burst` | pkg/sidecar/sidecar.go:208-210 | A burst runs exactly `n` fetch cycles, each a full `fetchAllCredentials` |
| `Sidecar.FirstError` | pkg/sidecar/sidecar.go:210 | A burst's aggregate is nil iff every cycle returned nil; otherwise it is the error of one of the cycles |
| `Sidecar.Run` | pkg/sidecar/sidecar.go:197-214 | A setup error is returned before any fetch; with `ParallelRequests > 0` exactly that many cycles run and the result is nil iff all succeeded; otherwise one cycle runs and its error is the result |
| `Sidecar.DaemonTasks` | pkg/sidecar/sidecar.go:126-146 | With `ParallelRequests > 0` the only task is the parallel daemon; otherwise one watcher per enabled step, in fetch-cycle order (X.509, JWT bundle, JWT SVIDs) |
| `Sidecar.DaemonResult` | pkg/sidecar/sidecar.go:148-153 | As written: nil stays nil, a cancellation error is returned unchanged, any other error becomes nil |
| `Sidecar.RunDaemon` | pkg/sidecar/sidecar.go:115-154 | A setup error is returned unchanged and starts no task; otherwise the tasks are the parallel daemon alone when `ParallelRequests > 0`, else one watcher per enabled step in fetch-cycle order, and the result is an error iff the task runner returned a cancellation, in which case it is that error |
| `Sidecar.RunDaemonNeverFailsHard` | pkg/sidecar/sidecar.go:148-153 | Once set up, the daemon as written never returns an error other than a cancellation, and returns an error only when the task runner returned a cancellation |
| `Sidecar.DaemonResultSwallowsFailure` | pkg/sidecar/sidecar.go:149-150 | A concrete non-cancellation error that the mapping turns into nil while the intended mapping returns it |
| `Sidecar.IntendedDaemonResult` | pkg/sidecar/sidecar.go:148-153 | The corrected mapping: the result is an error iff the input is an error other than a cancellation, and then it is that error |
| `Sidecar.DaemonResultsDisagreeOnErrors` | pkg/sidecar/sidecar.go:148-153 | The written and the intended mapping agree exactly on a nil input |
| `Sidecar.RunParallelDaemon` | pkg/sidecar/sidecar.go:157-194 | Starts `ParallelRequests` workers (none when it is not positive), numbered 1 to N, and returns nil |
| `Sidecar.RunParallelDaemonToShutdown` | pkg/sidecar/sidecar.go:157-194 | The parallel daemon after cancellation: every one of the N workers completes the cycle in flight and stops at its first observed cancellation, running one full fetch cycle per look up to that one, and the daemon returns nil |
| `Sidecar.RunWorker` | pkg/sidecar/sidecar.go:163-182 | A worker runs a full fetch cycle before each look at the context and stops at the first look that sees cancellation, so it runs one cycle per look up to and including that one and always completes the cycle in flight; fetch errors do not stop it |
| `HelperConfig.CountEmpty` | cmd/spiffe-helper/config/config.go:119-128 | The count is the multiplicity of `""` among the arguments, at most their number, and zero iff no argument is empty |
| `HelperConfig.ValidateX509Config` | cmd/spiffe-helper/config/config.go:104-111 | An error iff some but not all of the three X.509 file names are empty; `(true, nil)` iff all three are set; `(false, nil)` iff all three are empty; the error carries the fixed message |
| `HelperConfig.ValidateJWTConfig` | cmd/spiffe-helper/config/config.go:113-117 | The bundle is enabled iff its file name is non-empty and SVIDs iff the SVID list is non-empty; there is no error result |
| `HelperConfig.ValidatedX509MatchesSidecar` | cmd/spiffe-helper/config/config.go:104-111 | The validator enables X.509 exactly when the sidecar, given the translated configuration, does |
| `HelperConfig.ValidatedJWTMatchesSidecar` | cmd/spiffe-helper/config/config.go:113-117 | The validator's JWT bundle and SVID decisions are the sidecar's decisions on the translated configuration |
| `HelperConfig.MapKeysToString` | cmd/spiffe-helper/config/config.go:143-151 | The output joins the map's keys with commas in strictly increasing order, each key once; an empty map gives `""`; when no key contains a comma, splitting the output at commas gives back the sorted keys |
| `Strings.SortedUnique` | cmd/spiffe-helper/config/config.go:149 | Two strictly sorted lists with the same elements are equal, so the key order of `mapKeysToString` does not depend on map iteration order |
| `Strings.Sort` | cmd/spiffe-helper/config/config.go:149 | Sorting distinct strings yields a strictly increasing list of the same length and elements |
| `Strings.SplitJoin` | cmd/spiffe-helper/config/config.go:150 | Splitting a comma-join of comma-free parts gives back the parts |
| `Strings.JoinSplit` | cmd/spiffe-helper/config/config.go:150 | Joining the pieces of a split gives back the string |
| `HelperConfig.ToFileMode` | cmd/spiffe-helper/config/config.go:78-81 | The 32-bit file mode equals the setting when it fits and is congruent to it modulo 2^32 otherwise |
| `HelperConfig.ToSidecarJWTConfigs` | cmd/spiffe-helper/config/config.go:93-99 | The JWT SVID list keeps its length and order; each entry's audience, extra audiences and file name are copied unchanged |
| `HelperConfig.NewSidecarConfig` | cmd/spiffe-helper/config/config.go:70-102 | Every scalar setting, including `ParallelRequests`, `Hint`, `CertDir` and the file names, is copied unchanged, file modes as 32-bit words, and the JWT SVID list is copied entry by entry in order |
| `Errors.IsCanceled` | pkg/sidecar/sidecar.go:149 | `errors.Is(err, context.Canceled)` holds iff `Canceled` is on the error's unwrap chain, the list of errors reached by unwrapping it one `%w` level at a time |
| `Strings.Less` | cmd/spiffe-helper/config/config.go:149 | Go's string order: `a < b` iff `a` is a proper prefix of `b`, or `a` has the smaller character at the first position where they differ |
| `Paths.Clean` | pkg/sidecar/sidecar.go:105-110 | The cleaned path is never empty and a rooted path stays rooted |
| `Paths.CleanIdempotent` | pkg/sidecar/sidecar.go:105-110 | Cleaning a cleaned path changes nothing |
| `Paths.JoinName` | pkg/sidecar/sidecar.go:105-110 | Joining a non-empty directory and a plain file name gives the cleaned directory, then `/`, then the name; a directory that cleans to `.` contributes nothing and one that cleans to `/` contributes only the root |
| `Paths.JoinCleanDir` | pkg/sidecar/sidecar.go:105-110 | A clean directory other than `.` and `/` joined with a plain name is `dir/name` |
| `Paths.JoinRootDir` | pkg/sidecar/sidecar.go:105-110 | A plain name joined under `/` is `/name` |
| `Paths.Join` | pkg/sidecar/sidecar.go:105 | A health key is empty iff both the directory and the file name are empty |
| `Paths.JoinPlainNames` | pkg/sidecar/sidecar.go:105-110 | For plain names the health key is `dir/name` |
| `Paths.JoinUnderRoot` | pkg/sidecar/sidecar.go:105-110 | Under a rooted directory `/d` a plain name is keyed as `/d/name` |

## Findings

| source | as written | input that shows it | evidently intended | confidence | as-written member | corrected member |
|---|---|---|---|---|---|---|
| pkg/sidecar/sidecar.go:149-153 | a non-nil error that is not a cancellation is replaced by nil, and a cancellation error is returned | the task runner returns a watcher error such as "permission denied": `RunDaemon` returns nil; the daemon is cancelled: `RunDaemon` returns `context.Canceled` | a cancellation is a clean shutdown (nil) and every other error is returned | high (the two returns look swapped); not executed | `Sidecar.DaemonResult` (counterexample `Sidecar.DaemonResultSwallowsFailure`) | `Sidecar.IntendedDaemonResult` |

The guard `err != nil && !errors.Is(err, context.Canceled)` on line 149 picks
out every error except a cancellation, which is the case a caller needs to
see: a cancellation is how a daemon is told to stop. Yet that branch returns
nil on line 150, while the cancellation falls through to `return err` on line
153. The two returns look swapped. `Sidecar.RunDaemon` follows the code and
keeps the mapping as written; `Sidecar.IntendedDaemonResult` is the corrected mapping, and
`Sidecar.DaemonResultsDisagreeOnErrors` shows that the two differ on every
non-nil error.

## Left out

- Writing credentials and updating statuses (`fetchAndWriteX509Context`, `fetchAndWriteJWTBundle`, `fetchAndWriteJWTSVIDs`), the watchers, the liveness and readiness checks, JWT refresh timing, retry backoff, child-process start and signalling: they are in the part of sidecar.go that is not part of this model, so each fetch step is only its returned error.
- `setupClients`, the Workload API client, the JWT source and the disk writers: foreign network and file-system calls; their results are parameters.
- `util.RunTasks` and `util.RunTasksInParallel`: not part of this model; `RunDaemon` takes the runner's aggregate error as a parameter, and a burst's aggregate is `FirstError`.
- `Sidecar.Run`: for a failing burst it states only that the result is one of the failing cycles' errors, because which error `util.RunTasksInParallel` reports depends on goroutine timing and that code is not part of this model.
- `Sidecar.RunWorker`: the worker loops until cancellation; the model takes the finite list of context observations the worker makes and reports a worker that has seen no cancellation in it as still running.
- `Sidecar.RunParallelDaemon`: goroutines, the `sync.WaitGroup` and the wait on the context are concurrency; the model states the workers started and the nil result, and `Sidecar.RunParallelDaemonToShutdown` runs the workers in sequence, each up to its first observed cancellation, without modelling how their cycles interleave.
- Closing the clients with `defer`, logging, the `stdin`/`stdout`/`stderr` fields and the test hooks: no modelled behaviour.
- `isFlagPassed`: depends on the global state of Go's `flag` package.
- HCL parsing, `ParseConfigFile`, `ValidateConfig`, the default constants, the health-check settings and the unused-key positions: library calls, code that is not part of this model, or settings the modelled functions do not use.
- `HelperConfig.MapKeysToString`: the round trip through `Split` is stated only for maps whose keys contain no comma, because a key with a comma splits into several parts.
- `Errors.IsCanceled`: only a single chain of `%w` wrappings is modelled; errors that wrap several errors (`errors.Join`, `Unwrap() []error`) and errors with their own `Is` method are not.
- Go strings are byte strings and may hold invalid UTF-8, while the model's strings are sequences of Unicode scalar values: map keys, file names and paths that are not valid UTF-8 are not modelled.
- `Paths.Join`: only the two-element form is modelled, which is the only one the sidecar uses.
- main.go and main_test.go: an HTTP echo server and its test, network I/O with no modelled logic.
