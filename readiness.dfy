/** Uploading the video and waiting until the service reports it ready.

    The service is abstracted into inputs: the upload's result, an oracle
    `statusAt` whose k-th value is the state name returned by the k-th
    status query (counting from 0), and an oracle `extra` whose k-th value
    is the time, beyond the fixed two-unit sleep, that the k-th iteration
    adds to the clock (query latency, sleep overshoot). Time is an integer
    count of elapsed units since the clock was started just before the
    first query. */
module Readiness {

  /** A remote file as the service describes it: its resource name and the
      name of its processing state. */
  datatype FileHandle = FileHandle(name: string, state: string)

  /** What the upload call does: yield a handle or raise. */
  datatype Upload = Uploaded(handle: FileHandle) | UploadError(cause: string)

  /** How the wait ends. Each finished wait records the number of status
      queries, the number of sleeps and the elapsed time at its exit; a
      failed upload ends before the clock is started. */
  datatype Outcome =
    | Ready(file: FileHandle, queries: nat, sleeps: nat, elapsed: nat)
    | UploadFailed(cause: string)
    | RemoteFailed(queries: nat, sleeps: nat, elapsed: nat)
    | TimedOut(queries: nat, sleeps: nat, elapsed: nat)
  {
    /** Number of status queries made; none when the upload failed. */
    function Queries(): nat {
      if UploadFailed? then 0 else queries
    }

    /** Number of sleeps made; none when the upload failed. */
    function Sleeps(): nat {
      if UploadFailed? then 0 else sleeps
    }
  }

  /** The fixed sleep between queries. */
  const PollInterval: nat := 2
  /** The wait is abandoned once strictly more than this has elapsed. */
  const MaxWait: nat := 120

  const ActiveState: string := "ACTIVE"
  const FailedState: string := "FAILED"

  /** Any state name other than the two terminal ones means "still working". */
  predicate IsPending(state: string) {
    state != ActiveState && state != FailedState
  }

  /** The clock after `n` full iterations, each a query and a sleep. */
  function ElapsedAfter(extra: nat -> nat, n: nat): (t: nat)
    ensures t >= PollInterval * n
  {
    if n == 0 then 0 else ElapsedAfter(extra, n - 1) + PollInterval + extra(n - 1)
  }

  /** Reference definition of the polling loop, entered for query number
      `q` with the clock at `ElapsedAfter(extra, q)`, which has not yet
      passed the deadline. */
  function PollFrom(name: string, statusAt: nat -> string, extra: nat -> nat, q: nat): (r: Outcome)
    requires ElapsedAfter(extra, q) <= MaxWait
    ensures !r.UploadFailed? && r.Queries() > q
    ensures r.Ready? ==> r.file == FileHandle(name, ActiveState)
    decreases MaxWait - ElapsedAfter(extra, q)
  {
    var state := statusAt(q);
    if state == ActiveState then
      Ready(FileHandle(name, state), q + 1, q, ElapsedAfter(extra, q))
    else if state == FailedState then
      RemoteFailed(q + 1, q, ElapsedAfter(extra, q))
    else if ElapsedAfter(extra, q + 1) > MaxWait then
      TimedOut(q + 1, q + 1, ElapsedAfter(extra, q + 1))
    else
      PollFrom(name, statusAt, extra, q + 1)
  }

  /** Reference definition of the whole step: upload, then poll. The
      uploaded handle's own state is not consulted; only its name is. */
  function Ingest(upload: Upload, statusAt: nat -> string, extra: nat -> nat): (r: Outcome)
    ensures upload.UploadError? <==> r.UploadFailed?
    ensures upload.UploadError? ==> r.cause == upload.cause
    ensures upload.Uploaded? ==> r.Queries() >= 1
    ensures r.Ready? ==> upload.Uploaded? && r.file == FileHandle(upload.handle.name, ActiveState)
  {
    match upload
    case UploadError(cause) => UploadFailed(cause)
    case Uploaded(h) => PollFrom(h.name, statusAt, extra, 0)
  }

  /** The exit condition of the wait after `k` queries: every earlier answer
      was pending and the clock had not passed the deadline when the k-th
      query was made, and that query either returned a terminal state or
      was followed by a sleep that took the clock past the deadline. */
  predicate ExitsAt(statusAt: nat -> string, extra: nat -> nat, k: nat): (r: bool)
    ensures r ==> 1 <= k <= MaxWait / PollInterval + 1
  {
    k >= 1 &&
    (forall j :: 0 <= j < k - 1 ==> IsPending(statusAt(j))) &&
    ElapsedAfter(extra, k - 1) <= MaxWait &&
    (!IsPending(statusAt(k - 1)) || ElapsedAfter(extra, k) > MaxWait)
  }

  /** The outcome of a wait that exits after `k` queries. */
  function OutcomeAt(name: string, statusAt: nat -> string, extra: nat -> nat, k: nat): (r: Outcome)
    requires k >= 1
    ensures !r.UploadFailed? && r.queries == k
    ensures r.Ready? <==> statusAt(k - 1) == ActiveState
    ensures r.RemoteFailed? <==> statusAt(k - 1) == FailedState
    ensures r.TimedOut? <==> IsPending(statusAt(k - 1))
    ensures r.sleeps == if r.TimedOut? then k else k - 1
    ensures r.Ready? ==> r.file == FileHandle(name, ActiveState)
  {
    var state := statusAt(k - 1);
    if state == ActiveState then Ready(FileHandle(name, state), k, k - 1, ElapsedAfter(extra, k - 1))
    else if state == FailedState then RemoteFailed(k, k - 1, ElapsedAfter(extra, k - 1))
    else TimedOut(k, k, ElapsedAfter(extra, k))
  }

  /** The wait is the loop as the application writes it: it exits after
      exactly `k` queries with `OutcomeAt(k)` whenever `ExitsAt(k)`. */
  lemma {:induction false} PollFromExitsAt(name: string, statusAt: nat -> string, extra: nat -> nat, q: nat, k: nat)
    requires ElapsedAfter(extra, q) <= MaxWait
    requires q < k && ExitsAt(statusAt, extra, k)
    ensures PollFrom(name, statusAt, extra, q) == OutcomeAt(name, statusAt, extra, k)
    decreases k - q
  {
    if q < k - 1 {
      assert IsPending(statusAt(q));
      ElapsedMonotone(extra, q + 1, k - 1);
      PollFromExitsAt(name, statusAt, extra, q + 1, k);
    }
  }

  /** Conversely, every wait ends at a query count where `ExitsAt` holds. */
  lemma {:induction false} PollFromEndsAtExit(name: string, statusAt: nat -> string, extra: nat -> nat, q: nat)
    requires ElapsedAfter(extra, q) <= MaxWait
    requires forall j :: 0 <= j < q ==> IsPending(statusAt(j))
    ensures ExitsAt(statusAt, extra, PollFrom(name, statusAt, extra, q).Queries())
    decreases MaxWait - ElapsedAfter(extra, q)
  {
    var state := statusAt(q);
    if IsPending(state) && ElapsedAfter(extra, q + 1) <= MaxWait {
      PollFromEndsAtExit(name, statusAt, extra, q + 1);
    } else {
      assert PollFrom(name, statusAt, extra, q).Queries() == q + 1;
    }
  }

  lemma {:induction false} ElapsedMonotone(extra: nat -> nat, m: nat, n: nat)
    requires m <= n
    ensures ElapsedAfter(extra, m) <= ElapsedAfter(extra, n)
    decreases n - m
  {
    if m < n {
      ElapsedMonotone(extra, m, n - 1);
    }
  }

  /** The exit point is unique: the first `k` with `ExitsAt(k)`. */
  lemma ExitsAtUnique(statusAt: nat -> string, extra: nat -> nat, k1: nat, k2: nat)
    requires ExitsAt(statusAt, extra, k1) && ExitsAt(statusAt, extra, k2)
    ensures k1 == k2
  {
    if k1 < k2 {
      assert IsPending(statusAt(k1 - 1));
      ElapsedMonotone(extra, k1, k2 - 1);
    } else if k2 < k1 {
      assert IsPending(statusAt(k2 - 1));
      ElapsedMonotone(extra, k2, k1 - 1);
    }
  }

  /** Characterisation of the whole step: a failed upload ends it with no
      query; otherwise it ends after exactly `k` queries, with
      `OutcomeAt(k)`, if and only if `ExitsAt(k)`. */
  lemma IngestCharacterised(upload: Upload, statusAt: nat -> string, extra: nat -> nat, k: nat)
    ensures upload.UploadError? ==> Ingest(upload, statusAt, extra) == UploadFailed(upload.cause)
    ensures upload.Uploaded? ==>
              (Ingest(upload, statusAt, extra).Queries() == k <==> ExitsAt(statusAt, extra, k))
    ensures upload.Uploaded? && ExitsAt(statusAt, extra, k) ==>
              Ingest(upload, statusAt, extra) == OutcomeAt(upload.handle.name, statusAt, extra, k)
  {
    if upload.Uploaded? {
      var name := upload.handle.name;
      var r := PollFrom(name, statusAt, extra, 0);
      PollFromEndsAtExit(name, statusAt, extra, 0);
      if ExitsAt(statusAt, extra, k) {
        PollFromExitsAt(name, statusAt, extra, 0, k);
      }
      if r.Queries() == k {
        assert ExitsAt(statusAt, extra, k);
      } else if ExitsAt(statusAt, extra, k) {
        ExitsAtUnique(statusAt, extra, k, r.Queries());
      }
    }
  }

  /** A failed upload ends the run before the first status query: the
      outcome is the same whatever the status service and the clock do. */
  lemma UploadFailureStopsBeforeQuery(upload: Upload, statusAt: nat -> string, extra: nat -> nat)
    requires upload.UploadError?
    ensures Ingest(upload, statusAt, extra) == UploadFailed(upload.cause)
    ensures forall s2: nat -> string, e2: nat -> nat :: Ingest(upload, s2, e2) == Ingest(upload, statusAt, extra)
  {
  }

  /** The state the upload reported is never consulted. */
  lemma UploadStateIgnored(name: string, s1: string, s2: string, statusAt: nat -> string, extra: nat -> nat)
    ensures Ingest(Uploaded(FileHandle(name, s1)), statusAt, extra)
         == Ingest(Uploaded(FileHandle(name, s2)), statusAt, extra)
  {
  }

  /** An ACTIVE answer to the first query is Ready after one query and no
      sleep, whatever state the upload reported. */
  lemma FirstQueryActive(h: FileHandle, statusAt: nat -> string, extra: nat -> nat)
    requires statusAt(0) == ActiveState
    ensures Ingest(Uploaded(h), statusAt, extra) == Ready(FileHandle(h.name, ActiveState), 1, 0, 0)
  {
  }

  /** A FAILED answer to query `k` after pending answers, with the deadline
      not yet passed at that query, ends the wait right there: `k` queries,
      one sleep fewer. */
  lemma FailedAtQuery(h: FileHandle, statusAt: nat -> string, extra: nat -> nat, k: nat)
    requires k >= 1 && statusAt(k - 1) == FailedState
    requires forall j :: 0 <= j < k - 1 ==> IsPending(statusAt(j))
    requires ElapsedAfter(extra, k - 1) <= MaxWait
    ensures Ingest(Uploaded(h), statusAt, extra) == RemoteFailed(k, k - 1, ElapsedAfter(extra, k - 1))
  {
    IngestCharacterised(Uploaded(h), statusAt, extra, k);
  }

  /** A pending answer leads to a sleep, and the deadline is tested only
      after that sleep: a timed-out wait made one sleep per query, the last
      query was made before the deadline and the last sleep passed it. */
  lemma TimeoutOnlyAfterSleep(upload: Upload, statusAt: nat -> string, extra: nat -> nat)
    requires Ingest(upload, statusAt, extra).TimedOut?
    ensures var r := Ingest(upload, statusAt, extra);
            r.sleeps == r.queries >= 1 && IsPending(statusAt(r.queries - 1))
            && ElapsedAfter(extra, r.queries - 1) <= MaxWait
            && r.elapsed == ElapsedAfter(extra, r.queries) > MaxWait
  {
    var r := Ingest(upload, statusAt, extra);
    IngestCharacterised(upload, statusAt, extra, r.queries);
  }

  /** Whatever the delays, the wait makes at most 61 queries. */
  lemma QueryBound(upload: Upload, statusAt: nat -> string, extra: nat -> nat)
    ensures Ingest(upload, statusAt, extra).Queries() <= MaxWait / PollInterval + 1
    ensures Ingest(upload, statusAt, extra).Sleeps() <= Ingest(upload, statusAt, extra).Queries()
  {
    var r := Ingest(upload, statusAt, extra);
    if upload.Uploaded? {
      IngestCharacterised(upload, statusAt, extra, r.Queries());
    }
  }

  /** The two-unit clock with no extra delay. */
  function NoDelay(k: nat): nat { 0 }

  lemma {:induction false} ElapsedNoDelay(n: nat)
    ensures ElapsedAfter(NoDelay, n) == PollInterval * n
  {
    if n > 0 {
      ElapsedNoDelay(n - 1);
    }
  }

  /** With every answer pending and the clock advancing exactly two units
      per sleep, the wait times out after 61 queries and 61 sleeps, at 122. */
  lemma AllPendingTimesOut(h: FileHandle, statusAt: nat -> string)
    requires forall j: nat :: IsPending(statusAt(j))
    ensures Ingest(Uploaded(h), statusAt, NoDelay) == TimedOut(61, 61, 122)
  {
    ElapsedNoDelay(60);
    ElapsedNoDelay(61);
    assert ExitsAt(statusAt, NoDelay, 61);
    IngestCharacterised(Uploaded(h), statusAt, NoDelay, 61);
  }

  /** Two pending answers (any non-terminal names) and then ACTIVE: ready after three queries and two
      sleeps, four units in. */
  lemma PendingPendingActive(h: FileHandle, statusAt: nat -> string)
    requires IsPending(statusAt(0)) && IsPending(statusAt(1)) && statusAt(2) == ActiveState
    ensures Ingest(Uploaded(h), statusAt, NoDelay) == Ready(FileHandle(h.name, ActiveState), 3, 2, 4)
  {
    ElapsedNoDelay(2);
    assert ExitsAt(statusAt, NoDelay, 3);
    IngestCharacterised(Uploaded(h), statusAt, NoDelay, 3);
  }

  /** Each iteration's extra delay shows up in every later clock reading. */
  lemma {:induction false} ElapsedIncludesDelay(extra: nat -> nat, n: nat, j: nat)
    requires j < n
    ensures ElapsedAfter(extra, n) >= PollInterval * n + extra(j)
    decreases n
  {
    if j < n - 1 {
      ElapsedIncludesDelay(extra, n - 1, j);
    }
  }

  /** With every answer pending, any extra delay in the first 60 iterations
      ends the wait after at most 60 queries: the clock is past the deadline
      after the 60th sleep. */
  lemma DelayedAllPendingTimesOutSooner(h: FileHandle, statusAt: nat -> string, extra: nat -> nat, j: nat)
    requires forall i: nat :: IsPending(statusAt(i))
    requires j < MaxWait / PollInterval && extra(j) > 0
    ensures Ingest(Uploaded(h), statusAt, extra).TimedOut?
    ensures Ingest(Uploaded(h), statusAt, extra).queries <= MaxWait / PollInterval
  {
    var r := Ingest(Uploaded(h), statusAt, extra);
    IngestCharacterised(Uploaded(h), statusAt, extra, r.queries);
    ElapsedIncludesDelay(extra, MaxWait / PollInterval, j);
  }

  /** The upload guard and the polling loop as the application runs them.
      A stop of the run is a terminal outcome; the loop's `break` is the
      Ready outcome. */
  method AwaitReady(upload: Upload, statusAt: nat -> string, extra: nat -> nat) returns (outcome: Outcome)
    ensures outcome == Ingest(upload, statusAt, extra)
    ensures outcome.Ready? ==> outcome.file.state == ActiveState
    ensures outcome.UploadFailed? <==> upload.UploadError?
  {
    if upload.UploadError? {
      return UploadFailed(upload.cause);
    }
    var videoFile := upload.handle;
    var elapsed: nat := 0;
    var queries: nat := 0;
    var sleeps: nat := 0;
    while true
      invariant sleeps == queries && elapsed == ElapsedAfter(extra, queries) <= MaxWait
      invariant videoFile.name == upload.handle.name
      invariant PollFrom(videoFile.name, statusAt, extra, queries) == Ingest(upload, statusAt, extra)
      decreases MaxWait - elapsed
    {
      videoFile := FileHandle(videoFile.name, statusAt(queries));
      queries := queries + 1;
      if videoFile.state == ActiveState {
        break;
      } else if videoFile.state == FailedState {
        return RemoteFailed(queries, sleeps, elapsed);
      }
      elapsed := elapsed + PollInterval + extra(queries - 1);
      sleeps := sleeps + 1;
      if elapsed > MaxWait {
        return TimedOut(queries, sleeps, elapsed);
      }
    }
    outcome := Ready(videoFile, queries, sleeps, elapsed);
  }
}
