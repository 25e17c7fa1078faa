/**
 The SPIFFE sidecar (pkg/sidecar): its health bookkeeping, the fixed order of
 one credential-fetch cycle, and how the one-shot and daemon entry points pick
 the work they run.

 Calls to the Workload API, the disk writers and the task runners of the
 `util` package are not modelled; each appears as the `Outcome` it returns,
 supplied as a parameter.
 */
module Sidecar {

  import opened Errors
  import opened Optional
  import opened Paths

  /** `fs.FileMode`: an unsigned 32-bit permission word. */
  newtype FileMode = x: int | 0 <= x < 0x1_0000_0000

  /** One configured JWT SVID: the audience it is requested for, any extra
      audiences, and the file it is written to. */
  datatype JWTConfig = JWTConfig(
    jwtAudience: string,
    jwtExtraAudiences: seq<string>,
    jwtSVIDFilename: string)

  /** The sidecar's configuration (`sidecar.Config`); the logger is left out. */
  datatype Config = Config(
    addIntermediatesToBundle: bool,
    agentAddress: string,
    cmd: string,
    cmdArgs: string,
    pidFilename: string,
    certDir: string,
    certFileMode: FileMode,
    keyFileMode: FileMode,
    jwtBundleFileMode: FileMode,
    jwtSVIDFileMode: FileMode,
    includeFederatedDomains: bool,
    jwtBundleFilename: string,
    renewSignal: string,
    svidFilename: string,
    svidKeyFilename: string,
    svidBundleFilename: string,
    jwtSVIDs: seq<JWTConfig>,
    parallelRequests: int,
    hint: string)

  const WriteStatusUnwritten: string := "unwritten"
  const WriteStatusFailed: string := "failed"
  const WriteStatusWritten: string := "written"

  /** Write status per resource: an optional X.509 status and one status per
      JWT file path. */
  datatype FileWriteStatuses = FileWriteStatuses(
    x509WriteStatus: Option<string>,
    jwtWriteStatus: map<string, string>)

  datatype Health = Health(fileWriteStatuses: FileWriteStatuses)

  /** The sidecar value; Workload API clients, the child process and the
      standard streams are left out. */
  datatype Sidecar = Sidecar(config: Config, health: Health)

  /** X.509 SVIDs are fetched when all three X.509 file names are set. */
  predicate X509Enabled(c: Config)
  {
    c.svidFilename != "" && c.svidKeyFilename != "" && c.svidBundleFilename != ""
  }

  /** The JWT bundle is fetched when its file name is set. */
  predicate JWTBundleEnabled(c: Config)
  {
    c.jwtBundleFilename != ""
  }

  /** JWT SVIDs are fetched when at least one is configured. */
  predicate JWTSVIDsEnabled(c: Config)
  {
    |c.jwtSVIDs| > 0
  }

  // ---------------------------------------------------------------------------
  // Health bookkeeping

  /** The health-map keys of the configured JWT SVID files. */
  function SVIDPaths(certDir: string, svids: seq<JWTConfig>): (paths: set<string>)
  {
    set i | 0 <= i < |svids| :: Join(certDir, svids[i].jwtSVIDFilename)
  }

  /** The health-map keys `New` creates for JWT material: the bundle file when
      the bundle is enabled, and every configured SVID file. */
  function JWTStatusPaths(c: Config): (paths: set<string>)
  {
    (if JWTBundleEnabled(c) then {Join(c.certDir, c.jwtBundleFilename)} else {})
      + SVIDPaths(c.certDir, c.jwtSVIDs)
  }

  lemma SVIDPathsCons(certDir: string, svids: seq<JWTConfig>)
    requires |svids| > 0
    ensures SVIDPaths(certDir, svids)
         == {Join(certDir, svids[0].jwtSVIDFilename)} + SVIDPaths(certDir, svids[1..])
  {
  }

  /** The loop over the JWT SVIDs in `setupHealth`: each SVID file path is
      set to "unwritten", every other entry is kept. */
  function AddSVIDStatuses(m: map<string, string>, certDir: string, svids: seq<JWTConfig>)
    : (r: map<string, string>)
    ensures r.Keys == m.Keys + SVIDPaths(certDir, svids)
    ensures forall p :: p in r ==>
              r[p] == (if p in SVIDPaths(certDir, svids) then WriteStatusUnwritten else m[p])
    decreases |svids|
  {
    if |svids| == 0 then m
    else
      SVIDPathsCons(certDir, svids);
      AddSVIDStatuses(m[Join(certDir, svids[0].jwtSVIDFilename) := WriteStatusUnwritten],
                      certDir, svids[1..])
  }

  /** `setupHealth`: the statuses of a freshly created sidecar. */
  function SetupHealth(c: Config): (statuses: FileWriteStatuses)
  {
    var x509 := if X509Enabled(c) then Some(WriteStatusUnwritten) else None;
    var jwt: map<string, string> :=
      if JWTBundleEnabled(c) then map[Join(c.certDir, c.jwtBundleFilename) := WriteStatusUnwritten]
      else map[];
    FileWriteStatuses(x509, AddSVIDStatuses(jwt, c.certDir, c.jwtSVIDs))
  }

  /** `New`: a sidecar whose every enabled resource is "unwritten". The X.509
      status is present exactly when X.509 is enabled; the JWT keys are exactly
      the bundle path (when enabled) and the SVID paths. */
  function New(c: Config): (s: Sidecar)
    ensures s.config == c
    ensures s.health.fileWriteStatuses.x509WriteStatus.Some? <==> X509Enabled(c)
    ensures s.health.fileWriteStatuses.x509WriteStatus.Some? ==>
              s.health.fileWriteStatuses.x509WriteStatus.value == "unwritten"
    ensures s.health.fileWriteStatuses.jwtWriteStatus.Keys == JWTStatusPaths(c)
    ensures forall p :: p in s.health.fileWriteStatuses.jwtWriteStatus ==>
              s.health.fileWriteStatuses.jwtWriteStatus[p] == "unwritten"
  {
    Sidecar(c, Health(SetupHealth(c)))
  }

  /** At most one SVID path per configured SVID. */
  lemma {:induction false} SVIDPathsBound(certDir: string, svids: seq<JWTConfig>)
    ensures |SVIDPaths(certDir, svids)| <= |svids|
    decreases |svids|
  {
    if |svids| > 0 {
      SVIDPathsCons(certDir, svids);
      SVIDPathsBound(certDir, svids[1..]);
    }
  }

  /** `New` creates at most one JWT status entry per JWT resource. */
  lemma NewJWTEntryCount(c: Config)
    ensures |New(c).health.fileWriteStatuses.jwtWriteStatus|
            <= (if JWTBundleEnabled(c) then 1 else 0) + |c.jwtSVIDs|
  {
    SVIDPathsBound(c.certDir, c.jwtSVIDs);
    assert New(c).health.fileWriteStatuses.jwtWriteStatus.Keys == JWTStatusPaths(c);
  }

  /** With a clean certificate directory such as `/run/spire/certs` and a
      plain file name, the SVID files of a configuration are keyed by
      `certDir/filename`. */
  lemma NewKeysPlainSVIDPath(c: Config, i: int)
    requires 0 <= i < |c.jwtSVIDs|
    requires Clean(c.certDir) == c.certDir && c.certDir != "" && c.certDir != "." && c.certDir != "/"
    requires PlainName(c.jwtSVIDs[i].jwtSVIDFilename)
    ensures c.certDir + "/" + c.jwtSVIDs[i].jwtSVIDFilename
            in New(c).health.fileWriteStatuses.jwtWriteStatus
  {
    JoinCleanDir(c.certDir, c.jwtSVIDs[i].jwtSVIDFilename);
  }

  // ---------------------------------------------------------------------------
  // One credential-fetch cycle

  /** The steps of one fetch cycle. */
  datatype Step = X509Step | JWTBundleStep | JWTSVIDsStep

  /** Position of a step in the fixed cycle order. */
  function Rank(s: Step): nat
  {
    match s
    case X509Step => 0
    case JWTBundleStep => 1
    case JWTSVIDsStep => 2
  }

  predicate StepEnabled(c: Config, s: Step)
  {
    match s
    case X509Step => X509Enabled(c)
    case JWTBundleStep => JWTBundleEnabled(c)
    case JWTSVIDsStep => JWTSVIDsEnabled(c)
  }

  /** The result each fetch-and-write step would return in this cycle. */
  datatype StepResults = StepResults(x509: Outcome, jwtBundle: Outcome, jwtSVIDs: Outcome)
  {
    function Of(s: Step): Outcome
    {
      match s
      case X509Step => x509
      case JWTBundleStep => jwtBundle
      case JWTSVIDsStep => jwtSVIDs
    }
  }

  /** The steps a cycle attempts, in order, and the error it returns. */
  datatype FetchReport = FetchReport(attempted: seq<Step>, result: Outcome)

  /** The enabled steps of a cycle: exactly the enabled ones, in cycle order. */
  function EnabledSteps(c: Config): (steps: seq<Step>)
    ensures forall s :: s in steps <==> StepEnabled(c, s)
    ensures forall i, j :: 0 <= i < j < |steps| ==> Rank(steps[i]) < Rank(steps[j])
  {
    (if X509Enabled(c) then [X509Step] else [])
      + (if JWTBundleEnabled(c) then [JWTBundleStep] else [])
      + (if JWTSVIDsEnabled(c) then [JWTSVIDsStep] else [])
  }

  /** All attempted steps but the last succeeded. */
  predicate EarlierStepsSucceeded(attempted: seq<Step>, results: StepResults)
  {
    forall i :: 0 <= i < |attempted| - 1 ==> results.Of(attempted[i]).Ok?
  }

  /** Every step of the list succeeds. */
  predicate AllSucceeded(steps: seq<Step>, results: StepResults)
  {
    forall i :: 0 <= i < |steps| ==> results.Of(steps[i]).Ok?
  }

  /** A report that is consistent with running the steps `done` in order and
      stopping at the first failure. */
  predicate StoppedAtFirstFailure(r: FetchReport, done: seq<Step>, results: StepResults)
  {
    && r.attempted <= done
    && EarlierStepsSucceeded(r.attempted, results)
    && (r.result.Ok? ==> r.attempted == done && AllSucceeded(done, results))
    && (r.result.Err? ==>
          |r.attempted| > 0
          && r.result == results.Of(r.attempted[|r.attempted| - 1])
          && !AllSucceeded(done, results))
  }

  /** One guarded step of `fetchAllCredentials`: nothing happens once an
      earlier step has failed or when the step is disabled; otherwise the step
      is attempted and its error, if any, becomes the cycle's error. */
  function Attempt(prev: FetchReport, enabled: bool, s: Step, outcome: Outcome): (r: FetchReport)
  {
    if prev.result.Err? || !enabled then prev
    else FetchReport(prev.attempted + [s], outcome)
  }

  lemma AttemptStopsAtFirstFailure(
    prev: FetchReport, done: seq<Step>, results: StepResults, enabled: bool, s: Step)
    requires StoppedAtFirstFailure(prev, done, results)
    ensures StoppedAtFirstFailure(
              Attempt(prev, enabled, s, results.Of(s)),
              done + (if enabled then [s] else []), results)
  {
  }

  /** `fetchAllCredentials`: X.509, then the JWT bundle, then the JWT SVIDs,
      skipping disabled steps and returning the first error. */
  function FetchAllCredentials(c: Config, results: StepResults): (r: FetchReport)
    ensures r.attempted <= EnabledSteps(c)
    ensures r.result.Ok? <==> AllSucceeded(EnabledSteps(c), results)
    ensures r.result.Ok? ==> r.attempted == EnabledSteps(c)
    ensures EarlierStepsSucceeded(r.attempted, results)
    ensures r.result.Err? ==>
              |r.attempted| > 0 && r.result == results.Of(r.attempted[|r.attempted| - 1])
  {
    var start := FetchReport([], Ok);
    var afterX509 := Attempt(start, X509Enabled(c), X509Step, results.x509);
    var afterBundle := Attempt(afterX509, JWTBundleEnabled(c), JWTBundleStep, results.jwtBundle);
    var afterSVIDs := Attempt(afterBundle, JWTSVIDsEnabled(c), JWTSVIDsStep, results.jwtSVIDs);
    var x509Steps := if X509Enabled(c) then [X509Step] else [];
    var bundleSteps := if JWTBundleEnabled(c) then [JWTBundleStep] else [];
    AttemptStopsAtFirstFailure(start, [], results, X509Enabled(c), X509Step);
    assert [] + x509Steps == x509Steps;
    AttemptStopsAtFirstFailure(afterX509, x509Steps, results, JWTBundleEnabled(c), JWTBundleStep);
    AttemptStopsAtFirstFailure(afterBundle, x509Steps + bundleSteps,
                               results, JWTSVIDsEnabled(c), JWTSVIDsStep);
    afterSVIDs
  }

  /** A failed step stops the cycle: no step after it is attempted, and the
      cycle returns that step's error. */
  lemma FailedStepIsLast(c: Config, results: StepResults, s: Step)
    requires StepEnabled(c, s) && results.Of(s).Err?
    requires forall t :: StepEnabled(c, t) && Rank(t) < Rank(s) ==> results.Of(t).Ok?
    ensures FetchAllCredentials(c, results).result == results.Of(s)
    ensures FetchAllCredentials(c, results).attempted
            == EnabledSteps(c)[..IndexOfStep(EnabledSteps(c), s) + 1]
  {
  }

  /** Index of a step known to be in the list. */
  function IndexOfStep(steps: seq<Step>, s: Step): (k: nat)
    requires s in steps
    ensures k < |steps| && steps[k] == s
  {
    if steps[0] == s then 0 else 1 + IndexOfStep(steps[1..], s)
  }

  // ---------------------------------------------------------------------------
  // One-shot mode

  /** The fetch cycles `Run` performed and what it returned. */
  datatype RunReport = RunReport(cycles: seq<FetchReport>, result: Outcome)

  /** `n` fetch cycles, the `i`-th seeing the step results `cycle(i)`. */
  function Burst(c: Config, cycle: nat -> StepResults, n: nat): (rs: seq<FetchReport>)
    ensures |rs| == n
    ensures forall i :: 0 <= i < n ==> rs[i] == FetchAllCredentials(c, cycle(i))
  {
    if n == 0 then [] else Burst(c, cycle, n - 1) + [FetchAllCredentials(c, cycle(n - 1))]
  }

  /** The aggregate error of a burst: nil when every cycle succeeded,
      otherwise the error of one of the failing cycles. */
  function FirstError(rs: seq<FetchReport>): (r: Outcome)
    ensures r.Ok? <==> forall i :: 0 <= i < |rs| ==> rs[i].result.Ok?
    ensures r.Err? ==> exists i :: 0 <= i < |rs| && rs[i].result == r
  {
    if |rs| == 0 then Ok
    else if rs[0].result.Err? then rs[0].result
    else
      var r := FirstError(rs[1..]);
      assert forall i :: 0 <= i < |rs[1..]| ==> rs[1..][i] == rs[i + 1];
      r
  }

  /** `Run`: a client setup error is returned before any fetch. With parallel
      requests configured, a burst of exactly that many cycles runs; otherwise
      one cycle runs and its error is returned. */
  function Run(c: Config, setup: Outcome, cycle: nat -> StepResults): (r: RunReport)
    ensures setup.Err? ==> r.cycles == [] && r.result == setup
    ensures setup.Ok? && c.parallelRequests > 0 ==>
              |r.cycles| == c.parallelRequests
              && (forall i :: 0 <= i < |r.cycles| ==> r.cycles[i] == FetchAllCredentials(c, cycle(i)))
              && (r.result.Ok? <==> forall i :: 0 <= i < |r.cycles| ==> r.cycles[i].result.Ok?)
    ensures setup.Ok? && c.parallelRequests <= 0 ==>
              r.cycles == [FetchAllCredentials(c, cycle(0))] && r.result == r.cycles[0].result
    ensures r.result.Err? && setup.Ok? ==>
              exists i :: 0 <= i < |r.cycles| && r.cycles[i].result == r.result
  {
    if setup.Err? then RunReport([], setup)
    else if c.parallelRequests > 0 then
      var rs := Burst(c, cycle, c.parallelRequests);
      RunReport(rs, FirstError(rs))
    else
      var one := FetchAllCredentials(c, cycle(0));
      RunReport([one], one.result)
  }

  // ---------------------------------------------------------------------------
  // Daemon mode

  /** The long-lived tasks `RunDaemon` hands to the task runner. */
  datatype Task = ParallelDaemonTask | WatchX509Task | WatchJWTBundlesTask | WatchJWTSVIDsTask

  /** The watcher that keeps one kind of credential fresh. */
  function WatcherFor(s: Step): Task
  {
    match s
    case X509Step => WatchX509Task
    case JWTBundleStep => WatchJWTBundlesTask
    case JWTSVIDsStep => WatchJWTSVIDsTask
  }

  /** The task list of `RunDaemon`: the parallel daemon alone when parallel
      requests are configured, otherwise one watcher per enabled credential
      kind, in fetch-cycle order. */
  function DaemonTasks(c: Config): (tasks: seq<Task>)
    ensures c.parallelRequests > 0 ==> tasks == [ParallelDaemonTask]
    ensures c.parallelRequests <= 0 ==>
              |tasks| == |EnabledSteps(c)|
              && forall i :: 0 <= i < |tasks| ==> tasks[i] == WatcherFor(EnabledSteps(c)[i])
  {
    if c.parallelRequests > 0 then [ParallelDaemonTask]
    else
      (if X509Enabled(c) then [WatchX509Task] else [])
        + (if JWTBundleEnabled(c) then [WatchJWTBundlesTask] else [])
        + (if JWTSVIDsEnabled(c) then [WatchJWTSVIDsTask] else [])
  }

  /** The tasks `RunDaemon` started and what it returned. */
  datatype DaemonReport = DaemonReport(tasks: seq<Task>, result: Outcome)

  /** The result mapping at the end of `RunDaemon`, as written: a nil result
      stays nil, a cancellation error is returned, and any other error is
      replaced by nil. */
  function DaemonResult(err: Outcome): (r: Outcome)
    ensures err.Ok? ==> r.Ok?
    ensures err.Err? && IsCanceled(err.error) ==> r == err
    ensures IsHardError(err) ==> r.Ok?
  {
    if err.Err? && !IsCanceled(err.error) then Ok else err
  }

  /** `RunDaemon`: a client setup error is returned unchanged and starts no
      task; otherwise the task runner's aggregate `runTasks` is passed through
      the result mapping. */
  function RunDaemon(c: Config, setup: Outcome, runTasks: Outcome): (r: DaemonReport)
    ensures setup.Err? ==> r.tasks == [] && r.result == setup
    ensures setup.Ok? && c.parallelRequests > 0 ==> r.tasks == [ParallelDaemonTask]
    ensures setup.Ok? && c.parallelRequests <= 0 ==>
              |r.tasks| == |EnabledSteps(c)|
              && forall i :: 0 <= i < |r.tasks| ==> r.tasks[i] == WatcherFor(EnabledSteps(c)[i])
    ensures setup.Ok? ==>
              (r.result.Err? <==> runTasks.Err? && IsCanceled(runTasks.error))
              && (r.result.Err? ==> r.result == runTasks)
  {
    if setup.Err? then DaemonReport([], setup)
    else DaemonReport(DaemonTasks(c), DaemonResult(runTasks))
  }

  /** Once the clients are set up, `RunDaemon` as written never reports an
      error other than a cancellation. */
  lemma RunDaemonNeverFailsHard(c: Config, runTasks: Outcome)
    ensures !IsHardError(RunDaemon(c, Ok, runTasks).result)
    ensures RunDaemon(c, Ok, runTasks).result.Err? ==> runTasks.Err? && IsCanceled(runTasks.error)
  {
  }

  /** A concrete failure the mapping swallows: a watcher stopped by a
      permission error makes `RunDaemon` return nil, where the intended
      mapping returns the error. */
  lemma DaemonResultSwallowsFailure()
    ensures DaemonResult(Err(Failure("permission denied"))) == Ok
    ensures IntendedDaemonResult(Err(Failure("permission denied"))) == Err(Failure("permission denied"))
  {
  }

  /** The result mapping as evidently intended: a cancellation is a clean
      shutdown and yields nil, any other error is returned. */
  function IntendedDaemonResult(err: Outcome): (r: Outcome)
    ensures r.Err? <==> IsHardError(err)
    ensures r.Err? ==> r == err
  {
    if err.Err? && IsCanceled(err.error) then Ok else err
  }

  /** The two mappings agree only on a nil result. */
  lemma DaemonResultsDisagreeOnErrors(err: Outcome)
    ensures DaemonResult(err) == IntendedDaemonResult(err) <==> err.Ok?
  {
  }

  /** `runParallelDaemon`: starts `parallelRequests` workers, numbered from 1,
      and, once all have stopped, returns nil. */
  method RunParallelDaemon(c: Config) returns (workers: seq<nat>, err: Outcome)
    ensures |workers| == (if c.parallelRequests > 0 then c.parallelRequests else 0)
    ensures forall i :: 0 <= i < |workers| ==> workers[i] == i + 1
    ensures err == Ok
  {
    workers := [];
    var i := 0;
    while i < c.parallelRequests
      invariant 0 <= i
      invariant c.parallelRequests > 0 ==> i <= c.parallelRequests
      invariant c.parallelRequests <= 0 ==> i == 0
      invariant |workers| == i
      invariant forall j :: 0 <= j < i ==> workers[j] == j + 1
    {
      workers := workers + [i + 1];
      i := i + 1;
    }
    err := Ok;
  }

  /** The first index holding `true`. */
  function FirstTrue(bs: seq<bool>): (k: nat)
    requires true in bs
    ensures k < |bs| && bs[k]
    ensures forall j :: 0 <= j < k ==> !bs[j]
  {
    if bs[0] then 0 else 1 + FirstTrue(bs[1..])
  }

  /** The first `true` is the one with no `true` before it. */
  lemma {:induction false} FirstTrueAt(bs: seq<bool>, i: nat)
    requires i < |bs| && bs[i]
    requires forall j :: 0 <= j < i ==> !bs[j]
    ensures FirstTrue(bs) == i
    decreases i
  {
    if i > 0 {
      FirstTrueAt(bs[1..], i - 1);
    }
  }

  /** One parallel worker. It runs a fetch cycle, ignores its error, and then
      looks at the context: `doneAfter[i]` says whether cancellation is seen
      after cycle `i`. The worker stops at the first cancellation it sees, so
      it always finishes the cycle in flight; if none is seen within the
      observations given, it is still running. */
  method RunWorker(c: Config, cycle: nat -> StepResults, doneAfter: seq<bool>)
    returns (cycles: seq<FetchReport>, stopped: bool)
    ensures stopped <==> true in doneAfter
    ensures stopped ==> |cycles| == FirstTrue(doneAfter) + 1
    ensures !stopped ==> |cycles| == |doneAfter|
    ensures forall i :: 0 <= i < |cycles| ==> cycles[i] == FetchAllCredentials(c, cycle(i))
  {
    cycles := [];
    stopped := false;
    var i := 0;
    while i < |doneAfter|
      invariant 0 <= i <= |doneAfter|
      invariant |cycles| == i
      invariant forall j :: 0 <= j < i ==> !doneAfter[j]
      invariant forall j :: 0 <= j < i ==> cycles[j] == FetchAllCredentials(c, cycle(j))
    {
      cycles := cycles + [FetchAllCredentials(c, cycle(i))];
      if doneAfter[i] {
        FirstTrueAt(doneAfter, i);
        stopped := true;
        return;
      }
      i := i + 1;
    }
    assert forall b :: b in doneAfter ==> !b;
  }


  /** The parallel daemon from start to shutdown. `runParallelDaemon` returns
      only after the context is done, so each worker sees the cancellation at
      its next look: `doneAfter[w]` holds `true` somewhere. Each worker `w`,
      numbered `w + 1`, sees the step results `cycle(w + 1)(i)` in its `i`-th
      cycle. Every worker finishes the cycle in flight and stops at its first
      observed cancellation, and the daemon returns nil. */
  method RunParallelDaemonToShutdown(c: Config, cycle: nat -> nat -> StepResults, doneAfter: seq<seq<bool>>)
    returns (runs: seq<seq<FetchReport>>, err: Outcome)
    requires |doneAfter| == (if c.parallelRequests > 0 then c.parallelRequests else 0)
    requires forall w :: 0 <= w < |doneAfter| ==> true in doneAfter[w]
    ensures |runs| == |doneAfter|
    ensures forall w :: 0 <= w < |runs| ==>
              && |runs[w]| == FirstTrue(doneAfter[w]) + 1
              && forall i :: 0 <= i < |runs[w]| ==> runs[w][i] == FetchAllCredentials(c, cycle(w + 1)(i))
    ensures err == Ok
  {
    var workers;
    workers, err := RunParallelDaemon(c);
    runs := [];
    var w := 0;
    while w < |workers|
      invariant 0 <= w <= |workers|
      invariant |runs| == w
      invariant forall v :: 0 <= v < w ==>
                  && |runs[v]| == FirstTrue(doneAfter[v]) + 1
                  && forall i :: 0 <= i < |runs[v]| ==> runs[v][i] == FetchAllCredentials(c, cycle(v + 1)(i))
    {
      var cycles, stopped := RunWorker(c, cycle(workers[w]), doneAfter[w]);
      runs := runs + [cycles];
      w := w + 1;
    }
  }

}
