/** The bookkeeping of `automate_google_ai_simple` (7.py:951-1101): the plan of chunks
    whose canonical file is missing, the run over that plan with its session-retry
    counter, and the results collected from the directory afterwards. The browser is
    an oracle: for each chunk index it says how starting the browser and the
    interaction turn out. */
module Ledger {
  import opened Naming

  /** A chunk to produce: its 1-based index and its text. */
  datatype Job = Job(index: nat, text: string)

  /** A produced chunk file, as `DownloadResult` (7.py:96-100) records it. */
  datatype DownloadResult = DownloadResult(index: nat, originalPath: string, finalPath: string)

  /** The index `index` gives each element of `xs`, in order. */
  function IndicesOf<T>(xs: seq<T>, index: T -> nat): (r: seq<nat>)
    ensures |r| == |xs| && forall k :: 0 <= k < |xs| ==> r[k] == index(xs[k])
  {
    if xs == [] then [] else IndicesOf(xs[..|xs| - 1], index) + [index(xs[|xs| - 1])]
  }

  function Indices(jobs: seq<Job>): seq<nat> {
    IndicesOf(jobs, (j: Job) => j.index)
  }

  predicate Ascending(xs: seq<nat>) {
    forall a, b :: 0 <= a < b < |xs| ==> xs[a] < xs[b]
  }

  // ---------------------------------------------------------------------------
  // The plan
  // ---------------------------------------------------------------------------

  /** The chunks, in order, whose formatted name is not in the directory. */
  function Pending(t: Template, files: set<string>, chunks: seq<string>): seq<Job> {
    if chunks == [] then []
    else
      var n := |chunks|;
      Pending(t, files, chunks[..n - 1]) + (if Format(t, n) in files then [] else [Job(n, chunks[n - 1])])
  }

  /** Each job is a chunk in 1..|chunks| whose file is missing, with its own text. */
  ghost predicate MissingChunks(t: Template, files: set<string>, chunks: seq<string>, jobs: seq<Job>) {
    forall k :: 0 <= k < |jobs| ==>
      1 <= jobs[k].index <= |chunks| && jobs[k].text == chunks[jobs[k].index - 1] && Format(t, jobs[k].index) !in files
  }

  /** Every planned job is a chunk in 1..N whose file is missing, with its own text. */
  lemma {:induction false} PendingSound(t: Template, files: set<string>, chunks: seq<string>)
    ensures MissingChunks(t, files, chunks, Pending(t, files, chunks))
  {
    if chunks != [] {
      var n := |chunks|;
      var init := chunks[..n - 1];
      PendingSound(t, files, init);
      var p0 := Pending(t, files, init);
      var p := Pending(t, files, chunks);
      forall k | 0 <= k < |p|
        ensures 1 <= p[k].index <= n && p[k].text == chunks[p[k].index - 1] && Format(t, p[k].index) !in files
      {
        if k < |p0| {
          assert p[k] == p0[k];
          assert 1 <= p0[k].index <= n - 1 && p0[k].text == init[p0[k].index - 1];
        }
      }
    }
  }

  /** The plan is in ascending index order, so no chunk is planned twice. */
  lemma {:induction false} PendingAscending(t: Template, files: set<string>, chunks: seq<string>)
    ensures Ascending(Indices(Pending(t, files, chunks)))
  {
    if chunks != [] {
      var n := |chunks|;
      var init := chunks[..n - 1];
      PendingAscending(t, files, init);
      PendingSound(t, files, init);
      var p0 := Pending(t, files, init);
      var p := Pending(t, files, chunks);
      var xs := Indices(p);
      forall a, b | 0 <= a < b < |xs| ensures xs[a] < xs[b] {
        assert p[a] == p0[a];
        if b < |p0| {
          assert p[b] == p0[b];
          assert Indices(p0)[a] < Indices(p0)[b];
        } else {
          assert p[a].index <= n - 1 && p[b].index == n;
        }
      }
    }
  }

  /** Every chunk in 1..N whose file is missing is planned. */
  lemma {:induction false} PendingComplete(t: Template, files: set<string>, chunks: seq<string>)
    ensures forall i :: 1 <= i <= |chunks| && Format(t, i) !in files ==> i in Indices(Pending(t, files, chunks))
  {
    if chunks != [] {
      var n := |chunks|;
      var init := chunks[..n - 1];
      PendingComplete(t, files, init);
      var p0 := Pending(t, files, init);
      var p := Pending(t, files, chunks);
      forall i | 1 <= i <= n && Format(t, i) !in files ensures i in Indices(p) {
        if i < n {
          var k :| 0 <= k < |p0| && Indices(p0)[k] == i;
          assert p[k] == p0[k];
          assert Indices(p)[k] == i;
        } else {
          assert Indices(p)[|p| - 1] == n;
        }
      }
    }
  }

  /** The plan loop (7.py:968-974). */
  method Plan(t: Template, files: set<string>, chunks: seq<string>) returns (pending: seq<Job>)
    ensures pending == Pending(t, files, chunks)
  {
    pending := [];
    var i := 0;
    while i < |chunks|
      invariant 0 <= i <= |chunks|
      invariant pending == Pending(t, files, chunks[..i])
    {
      assert chunks[..i + 1][..i] == chunks[..i];
      if Format(t, i + 1) !in files {
        pending := pending + [Job(i + 1, chunks[i])];
      }
      i := i + 1;
    }
    assert chunks[..|chunks|] == chunks;
  }

  // ---------------------------------------------------------------------------
  // Collecting the results
  // ---------------------------------------------------------------------------

  /** A result for each index in 1..n, ascending, whose formatted name is in the
      directory, with that name as both its original and its final path. */
  function Collect(t: Template, files: set<string>, n: nat): seq<DownloadResult> {
    if n == 0 then []
    else
      Collect(t, files, n - 1)
      + (if Format(t, n) in files then [DownloadResult(n, Format(t, n), Format(t, n))] else [])
  }

  function ResultIndices(rs: seq<DownloadResult>): seq<nat> {
    IndicesOf(rs, (r: DownloadResult) => r.index)
  }

  /** Each result is a chunk in 1..n whose file exists, found where it was looked for. */
  ghost predicate PresentChunks(t: Template, files: set<string>, n: nat, rs: seq<DownloadResult>) {
    forall k :: 0 <= k < |rs| ==>
      1 <= rs[k].index <= n && Format(t, rs[k].index) in files
      && rs[k].originalPath == rs[k].finalPath == Format(t, rs[k].index)
  }

  /** Every result is a chunk in 1..n whose file exists, found where it was looked for. */
  lemma {:induction false} CollectSound(t: Template, files: set<string>, n: nat)
    ensures PresentChunks(t, files, n, Collect(t, files, n))
  {
    if n > 0 {
      CollectSound(t, files, n - 1);
      var r0 := Collect(t, files, n - 1);
      var rs := Collect(t, files, n);
      forall k | 0 <= k < |rs|
        ensures 1 <= rs[k].index <= n && Format(t, rs[k].index) in files
          && rs[k].originalPath == rs[k].finalPath == Format(t, rs[k].index)
      {
        if k < |r0| {
          assert rs[k] == r0[k];
        }
      }
    }
  }

  /** The results are in ascending index order. */
  lemma {:induction false} CollectAscending(t: Template, files: set<string>, n: nat)
    ensures Ascending(ResultIndices(Collect(t, files, n)))
  {
    if n > 0 {
      CollectAscending(t, files, n - 1);
      CollectSound(t, files, n - 1);
      var r0 := Collect(t, files, n - 1);
      var rs := Collect(t, files, n);
      var xs := ResultIndices(rs);
      forall a, b | 0 <= a < b < |xs| ensures xs[a] < xs[b] {
        assert rs[a] == r0[a];
        if b < |r0| {
          assert rs[b] == r0[b];
          assert ResultIndices(r0)[a] < ResultIndices(r0)[b];
        } else {
          assert rs[a].index <= n - 1 && rs[b].index == n;
        }
      }
    }
  }

  /** Every chunk in 1..n whose file exists has a result. */
  lemma {:induction false} CollectComplete(t: Template, files: set<string>, n: nat)
    ensures forall i :: 1 <= i <= n && Format(t, i) in files ==> i in ResultIndices(Collect(t, files, n))
  {
    if n > 0 {
      CollectComplete(t, files, n - 1);
      var r0 := Collect(t, files, n - 1);
      var rs := Collect(t, files, n);
      forall i | 1 <= i <= n && Format(t, i) in files ensures i in ResultIndices(rs) {
        if i < n {
          var k :| 0 <= k < |r0| && ResultIndices(r0)[k] == i;
          assert rs[k] == r0[k];
          assert ResultIndices(rs)[k] == i;
        } else {
          assert ResultIndices(rs)[|rs| - 1] == n;
        }
      }
    }
  }

  /** Every index is either planned or collected, never both. */
  lemma {:induction false} PlanAndCollectPartition(t: Template, files: set<string>, chunks: seq<string>)
    ensures |Pending(t, files, chunks)| + |Collect(t, files, |chunks|)| == |chunks|
    ensures Pending(t, files, chunks) == [] <==> |Collect(t, files, |chunks|)| == |chunks|
  {
    if chunks != [] {
      PlanAndCollectPartition(t, files, chunks[..|chunks| - 1]);
    }
  }

  /** The collection loop (7.py:1092-1099, and 7.py:976-983 when nothing is pending). */
  method CollectResults(t: Template, files: set<string>, n: nat) returns (results: seq<DownloadResult>)
    ensures results == Collect(t, files, n)
  {
    results := [];
    var i := 1;
    while i <= n
      invariant 1 <= i <= n + 1
      invariant results == Collect(t, files, i - 1)
    {
      var expected := Format(t, i);
      if expected in files {
        results := results + [DownloadResult(i, expected, expected)];
      }
      i := i + 1;
    }
  }

  /** The jobs of `jobs` whose file is still missing from `files`. */
  function StillMissing(t: Template, files: set<string>, jobs: seq<Job>): seq<Job> {
    if jobs == [] then []
    else
      StillMissing(t, files, jobs[..|jobs| - 1])
      + (if Format(t, jobs[|jobs| - 1].index) in files then [] else [jobs[|jobs| - 1]])
  }

  /** Planning again after files were added keeps the old plan's order and drops
      exactly the chunks whose file now exists. */
  lemma {:induction false} Replan(t: Template, files: set<string>, files': set<string>, chunks: seq<string>)
    requires files <= files'
    ensures Pending(t, files', chunks) == StillMissing(t, files', Pending(t, files, chunks))
  {
    if chunks != [] {
      var n := |chunks|;
      var init := chunks[..n - 1];
      Replan(t, files, files', init);
      var p0 := Pending(t, files, init);
      var job := Job(n, chunks[n - 1]);
      assert Pending(t, files', chunks) == Pending(t, files', init) + (if Format(t, n) in files' then [] else [job]);
      if Format(t, n) in files {
        assert Format(t, n) in files';
        assert Pending(t, files, chunks) == p0;
      } else {
        assert Pending(t, files, chunks) == p0 + [job];
        StillMissingSnoc(t, files', p0, job);
      }
    }
  }

  lemma StillMissingSnoc(t: Template, files: set<string>, jobs: seq<Job>, job: Job)
    ensures StillMissing(t, files, jobs + [job])
      == StillMissing(t, files, jobs) + (if Format(t, job.index) in files then [] else [job])
  {
    assert (jobs + [job])[..|jobs|] == jobs;
  }

  /** Nothing of the plan is dropped while the directory stays the same. */
  lemma {:induction false} StillMissingAll(t: Template, files: set<string>, jobs: seq<Job>, chunks: seq<string>)
    requires jobs == Pending(t, files, chunks)
    ensures StillMissing(t, files, jobs) == jobs
  {
    PendingSound(t, files, chunks);
    StillMissingKeeps(t, files, jobs);
  }

  lemma {:induction false} StillMissingKeeps(t: Template, files: set<string>, jobs: seq<Job>)
    requires forall k :: 0 <= k < |jobs| ==> Format(t, jobs[k].index) !in files
    ensures StillMissing(t, files, jobs) == jobs
  {
    if jobs != [] {
      StillMissingKeeps(t, files, jobs[..|jobs| - 1]);
    }
  }

  // ---------------------------------------------------------------------------
  // The run loop
  // ---------------------------------------------------------------------------

  /** How starting the browser and loading the page turn out (7.py:995-1003).
      `SessionNotCreated` is a session error that leaves `build_driver` and reaches the
      loop's handler (7.py:1045): after a failed start deleted the profile
      (7.py:242-245), the recursive call re-creates it in `setup_chrome_profile`, whose
      fallback start (7.py:193) is not guarded, and neither is the call at 7.py:205.
      A profile that cannot be deleted makes `build_driver` recurse until Python's
      recursion limit; the generic handler (7.py:1066) takes that error, and the model
      counts it as `StartFailed`. */
  datatype StartOutcome = Started | SessionNotCreated | StartFailed

  /** How the interaction, the refreshed second try and the wait for the download turn
      out (7.py:1009-1023): the name of the file that appeared and whether it decodes,
      or a failure. */
  datatype FlowOutcome = Produced(download: string, decodes: bool) | FlowFailed

  /** What the browser does for one chunk; `start` is used only when no browser runs. */
  datatype Attempt = Attempt(start: StartOutcome, flow: FlowOutcome)

  /** `max_retries` (7.py:990). */
  const MaxRetries: nat := 3

  /** The loop's state: the directory, whether a browser runs, `retry_count`, how many
      jobs were taken up, and whether the loop broke off. */
  datatype RunState = RunState(files: set<string>, driver: bool, retries: nat, tried: nat, stopped: bool)

  function Initial(files: set<string>): RunState {
    RunState(files, false, 0, 0, false)
  }

  /** A file `wait_for_new_file` can return: new, not a partial ".crdownload". */
  predicate NewDownload(files: set<string>, d: string) {
    ValidName(d) && d !in files && !(|d| >= 11 && d[|d| - 11..] == ".crdownload")
  }

  /** The interaction part of one job, once a browser runs (7.py:1005-1043). Any
      failure quits the browser and keeps the counter; a completed chunk resets it. */
  ghost function Interact(t: Template, files: set<string>, index: nat, flow: FlowOutcome, retries: nat, tried: nat): RunState {
    match flow
    case FlowFailed => RunState(files, false, retries, tried, false)
    case Produced(d, decodes) =>
      if !NewDownload(files, d) || !decodes then RunState(files, false, retries, tried, false)
      else
        match RenameOutcome(files + {d}, d, BuildTargetName(t, index, d))
        case Renamed(_, files') => RunState(files', true, 0, tried, false)
        case _ => RunState(files + {d}, false, retries, tried, false)
  }

  /** One iteration of the run loop (7.py:993-1080). */
  ghost function Step(t: Template, st: RunState, job: Job, a: Attempt): RunState {
    var tried := st.tried + 1;
    if !st.driver && a.start == SessionNotCreated then
      RunState(st.files, false, st.retries + 1, tried, st.retries + 1 >= MaxRetries)
    else if !st.driver && a.start == StartFailed then
      RunState(st.files, false, st.retries, tried, false)
    else
      Interact(t, st.files, job.index, a.flow, if st.driver then st.retries else 0, tried)
  }

  /** The run over `jobs`, with `oracle` giving each chunk index its attempt. */
  ghost function Run(t: Template, st: RunState, jobs: seq<Job>, oracle: nat -> Attempt): RunState
    decreases |jobs|
  {
    if jobs == [] || st.stopped then st
    else Run(t, Step(t, st, jobs[0], oracle(jobs[0].index)), jobs[1..], oracle)
  }

  /** One job of the loop; `stop` is the `break` once the counter reaches its limit. */
  method AttemptChunk(t: Template, files: set<string>, driver: bool, retryCount: nat, tried: nat, job: Job, a: Attempt)
    returns (files': set<string>, driver': bool, retryCount': nat, stop: bool)
    ensures RunState(files', driver', retryCount', tried + 1, stop) == Step(t, RunState(files, driver, retryCount, tried, false), job, a)
  {
    var retries := retryCount;
    if !driver {
      if a.start == SessionNotCreated {
        retryCount' := retryCount + 1;
        return files, false, retryCount', retryCount' >= MaxRetries;
      } else if a.start == StartFailed {
        return files, false, retryCount, false;
      }
      retries := 0;
    }
    files', driver', retryCount' := InteractWithPage(t, files, job.index, a.flow, retries);
    stop := false;
  }

  /** The interaction with the page once a browser runs: generate, download, check the
      audio, rename. */
  method InteractWithPage(t: Template, files: set<string>, index: nat, flow: FlowOutcome, retries: nat)
    returns (files': set<string>, driver': bool, retryCount': nat)
    ensures forall tried: nat :: RunState(files', driver', retryCount', tried, false) == Interact(t, files, index, flow, retries, tried)
  {
    match flow {
      case FlowFailed =>
        return files, false, retries;
      case Produced(d, decodes) =>
        if !NewDownload(files, d) || !decodes {
          return files, false, retries;
        }
        var target := BuildTargetName(t, index, d);
        var r := RenameDownloadedFile(files + {d}, d, target);
        match r {
          case Renamed(_, renamed) =>
            return renamed, true, 0;
          case _ =>
            return files + {d}, false, retries;
        }
    }
  }

  /** The run loop over the plan (7.py:993-1080). */
  method RunPending(t: Template, files0: set<string>, pending: seq<Job>, oracle: nat -> Attempt) returns (st: RunState)
    ensures st == Run(t, Initial(files0), pending, oracle)
  {
    var files, driver, retryCount := files0, false, 0;
    var i := 0;
    var stopped := false;
    while i < |pending|
      invariant 0 <= i <= |pending|
      invariant Run(t, Initial(files0), pending, oracle) == Run(t, RunState(files, driver, retryCount, i, false), pending[i..], oracle)
    {
      var job := pending[i];
      assert pending[i..][0] == job && pending[i..][1..] == pending[i + 1..];
      var stop;
      files, driver, retryCount, stop := AttemptChunk(t, files, driver, retryCount, i, job, oracle(job.index));
      i := i + 1;
      if stop {
        stopped := true;
        break;
      }
    }
    st := RunState(files, driver, retryCount, i, stopped);
  }

  /** The whole of `automate_google_ai_simple` on the directory `files0`: plan, run the
      plan when it is not empty, then collect. Returns the results and the directory. */
  method AutomateGoogleAiSimple(t: Template, files0: set<string>, chunks: seq<string>, oracle: nat -> Attempt)
    returns (results: seq<DownloadResult>, files: set<string>)
    ensures files == Run(t, Initial(files0), Pending(t, files0, chunks), oracle).files
    ensures results == Collect(t, files, |chunks|)
  {
    var pending := Plan(t, files0, chunks);
    if pending == [] {
      files := files0;
      results := CollectResults(t, files, |chunks|);
      return;
    }
    var st := RunPending(t, files0, pending, oracle);
    files := st.files;
    results := CollectResults(t, files, |chunks|);
  }

  // ---------------------------------------------------------------------------
  // Properties of the run
  // ---------------------------------------------------------------------------

  /** Only a session error while starting the browser raises the counter, and only the
      counter reaching `MaxRetries` stops the loop; a stopped loop sits exactly at the
      limit. */
  lemma StepSessionError(t: Template, st: RunState, job: Job, a: Attempt)
    requires st.retries < MaxRetries
    ensures var s := Step(t, st, job, a);
      && s.tried == st.tried + 1
      && (!st.driver && a.start == SessionNotCreated ==>
            s.retries == st.retries + 1 && s.files == st.files && !s.driver)
      && (s.stopped <==> !st.driver && a.start == SessionNotCreated && st.retries + 1 == MaxRetries)
      && (s.stopped ==> s.retries == MaxRetries)
      && (!s.stopped ==> s.retries < MaxRetries)
  {
  }

  /** A browser that starts resets the counter (7.py:1003), and so does a completed
      chunk (7.py:1043); any other failure quits the browser and leaves the counter as
      it was, and the loop goes on with the next chunk. */
  lemma StepCounter(t: Template, st: RunState, job: Job, a: Attempt)
    ensures var s := Step(t, st, job, a);
      && (!st.driver && a.start == Started ==> s.retries == 0 && !s.stopped)
      && (s.driver ==> s.retries == 0)
      && (!st.driver && a.start == StartFailed ==>
            s == RunState(st.files, false, st.retries, st.tried + 1, false))
      && (st.driver && !s.driver ==> s.retries == st.retries && !s.stopped)
  {
  }

  /** A run never removes a file that was there before it: a download is only renamed
      and a corrupt download was not there before. */
  lemma StepKeepsFiles(t: Template, st: RunState, job: Job, a: Attempt)
    ensures st.files <= Step(t, st, job, a).files
  {
    if (st.driver || a.start == Started) && a.flow.Produced? {
      var d := a.flow.download;
      if NewDownload(st.files, d) && a.flow.decodes {
        RenameOutcomeMeaning(st.files + {d}, d, BuildTargetName(t, job.index, d));
      }
    }
  }

  lemma {:induction false} RunKeepsFiles(t: Template, st: RunState, jobs: seq<Job>, oracle: nat -> Attempt)
    ensures st.files <= Run(t, st, jobs, oracle).files
    decreases |jobs|
  {
    if jobs != [] && !st.stopped {
      var s := Step(t, st, jobs[0], oracle(jobs[0].index));
      StepKeepsFiles(t, st, jobs[0], oracle(jobs[0].index));
      RunKeepsFiles(t, s, jobs[1..], oracle);
    }
  }

  /** The run takes the jobs up in order, each once, until it stops: it stops early only
      at the retry limit, and otherwise takes up every job. */
  lemma {:induction false} RunTakesEachJobOnce(t: Template, st: RunState, jobs: seq<Job>, oracle: nat -> Attempt)
    requires !st.stopped && st.retries < MaxRetries
    ensures var r := Run(t, st, jobs, oracle);
      && st.tried <= r.tried <= st.tried + |jobs|
      && (r.stopped ==> r.retries == MaxRetries)
      && (!r.stopped ==> r.tried == st.tried + |jobs| && r.retries < MaxRetries)
    decreases |jobs|
  {
    if jobs != [] {
      var s := Step(t, st, jobs[0], oracle(jobs[0].index));
      StepSessionError(t, st, jobs[0], oracle(jobs[0].index));
      if !s.stopped {
        RunTakesEachJobOnce(t, s, jobs[1..], oracle);
      }
    }
  }

  /** A completed chunk of a plain template lands under exactly the name the plan and
      the collection look for, and nothing else changes in the directory. */
  lemma CompletedChunkIsCanonical(t: Template, st: RunState, job: Job, a: Attempt)
    requires PlainTemplate(t) && Format(t, job.index) !in st.files
    requires st.driver || a.start == Started
    requires a.flow.Produced? && a.flow.decodes && NewDownload(st.files, a.flow.download)
    requires a.flow.download != Format(t, job.index)
    ensures Step(t, st, job, a) == RunState(st.files + {Format(t, job.index)}, true, 0, st.tried + 1, false)
  {
    var d, target := a.flow.download, Format(t, job.index);
    PlainTargetIsFormat(t, job.index, d);
    assert target !in st.files + {d};
    RenameOutcomeMeaning(st.files + {d}, d, target);
    var r := RenameOutcome(st.files + {d}, d, target);
    assert r.name == target;
    assert r.files == st.files + {target};
  }

  /** A download that already carries the canonical name is itself the clash: it is
      renamed to the first `_k` candidate and the chunk stays missing. */
  lemma DownloadNamedLikeTarget(t: Template, st: RunState, job: Job, a: Attempt)
    requires PlainTemplate(t) && Format(t, job.index) !in st.files
    requires st.driver || a.start == Started
    requires a.flow == Produced(Format(t, job.index), true) && NewDownload(st.files, a.flow.download)
    ensures Format(t, job.index) !in Step(t, st, job, a).files
  {
    var target := Format(t, job.index);
    PlainTargetIsFormat(t, job.index, target);
    RenameOutcomeMeaning(st.files + {target}, target, target);
  }

  /** A session error does not retry its chunk: the loop goes on with the next one and
      that chunk's file stays missing (7.py:1045-1059). */
  lemma SessionErrorSkipsChunk(t: Template, st: RunState, job: Job, jobs: seq<Job>, oracle: nat -> Attempt)
    requires !st.stopped && !st.driver && st.retries + 1 < MaxRetries
    requires oracle(job.index).start == SessionNotCreated
    ensures Run(t, st, [job] + jobs, oracle)
      == Run(t, RunState(st.files, false, st.retries + 1, st.tried + 1, false), jobs, oracle)
  {
    assert ([job] + jobs)[1..] == jobs;
  }

  /** When every start fails with a session error, the run takes up three chunks (or
      all, if fewer), changes nothing and stops. */
  lemma {:induction false} SessionErrorsStopTheRun(t: Template, st: RunState, jobs: seq<Job>, oracle: nat -> Attempt)
    requires !st.stopped && !st.driver && st.retries < MaxRetries
    requires forall k :: 0 <= k < |jobs| ==> oracle(jobs[k].index).start == SessionNotCreated
    ensures var r := Run(t, st, jobs, oracle);
      var left := MaxRetries - st.retries;
      && r.files == st.files
      && r.tried == st.tried + (if |jobs| < left then |jobs| else left)
      && (r.stopped <==> |jobs| >= left)
    decreases |jobs|
  {
    if jobs != [] {
      var s := Step(t, st, jobs[0], oracle(jobs[0].index));
      if !s.stopped {
        SessionErrorsStopTheRun(t, s, jobs[1..], oracle);
      }
    }
  }

  /** Everything that was in the directory and everything the first chunk completed is
      still there when the run ends, so it is collected. */
  lemma CompletedFirstChunkCollected(t: Template, files: set<string>, chunks: seq<string>, oracle: nat -> Attempt)
    requires PlainTemplate(t)
    requires Pending(t, files, chunks) != []
    requires var job := Pending(t, files, chunks)[0];
      var a := oracle(job.index);
      a.start == Started && a.flow.Produced? && a.flow.decodes && NewDownload(files, a.flow.download)
      && a.flow.download != Format(t, job.index)
    ensures var job := Pending(t, files, chunks)[0];
      var final := Run(t, Initial(files), Pending(t, files, chunks), oracle).files;
      job.index in ResultIndices(Collect(t, final, |chunks|))
  {
    var jobs := Pending(t, files, chunks);
    var job := jobs[0];
    PendingSound(t, files, chunks);
    CompletedChunkIsCanonical(t, Initial(files), job, oracle(job.index));
    var s := Step(t, Initial(files), job, oracle(job.index));
    RunKeepsFiles(t, s, jobs[1..], oracle);
    var final := Run(t, Initial(files), jobs, oracle).files;
    assert Format(t, job.index) in final;
    CollectComplete(t, final, |chunks|);
  }

  /** When no session error reaches the handler, the counter never rises, the run
      never stops early and it takes up every job. */
  lemma {:induction false} NoSessionErrorRunsAll(t: Template, st: RunState, jobs: seq<Job>, oracle: nat -> Attempt)
    requires !st.stopped
    requires forall k :: 0 <= k < |jobs| ==> oracle(jobs[k].index).start != SessionNotCreated
    ensures var r := Run(t, st, jobs, oracle);
      !r.stopped && r.tried == st.tried + |jobs| && r.retries <= st.retries
    decreases |jobs|
  {
    if jobs != [] {
      var s := Step(t, st, jobs[0], oracle(jobs[0].index));
      assert !s.stopped && s.retries <= st.retries;
      assert forall k :: 0 <= k < |jobs[1..]| ==> jobs[1..][k] == jobs[k + 1];
      NoSessionErrorRunsAll(t, s, jobs[1..], oracle);
    }
  }
}
