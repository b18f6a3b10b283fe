# AI Tennis Coach: model selection and upload readiness

The tennis-coach application is a single page. It takes an uploaded rally
video, picks a generative model, uploads the video to the model provider,
polls until the provider has processed it, and asks the model for a coaching
report. This project models the two pieces of decision logic in `app.py` and
proves properties of them. The service calls are replaced by inputs.

- **Model selection** (`ModelSelection`, `model_selection.dfy`). The scan goes
  over the listed models. It keeps the fallback name
  `"models/gemini-1.5-flash"` until it meets the first model that lists
  `generateContent` among its supported methods and has `flash` in its name.
  It then takes that model's name and stops. Python's substring test `in` is
  `ContainsSubstring`, proved equal to "occurs at some position".
- **Upload and readiness polling** (`Readiness`, `readiness.dfy`). An upload
  either raises, which stops the run (`UploadFailed`), or yields a handle. The
  loop then queries the file's state on every iteration. `ACTIVE` leaves the
  loop (`Ready`) and `FAILED` stops the run (`RemoteFailed`). Any other state
  name is pending: the loop sleeps 2 units, and only then tests whether more
  than 120 units have elapsed (`TimedOut`). Each outcome records its number of
  queries, its number of sleeps and the elapsed time. `PollFrom` is the
  reference definition. `ExitsAt` and `OutcomeAt` characterise it in closed
  form: the wait ends after the first query count at which the answer was
  terminal, or at which the following sleep passed the deadline.
  `AwaitReady` is the `while True` loop itself, proved equal to the reference.
- **The run** (`CoachApp`, `coach_app.dfy`). Selection, then the wait, then
  generation. Generation is reached only with the `ACTIVE` handle that the last
  query returned.

Inputs that stand for the outside world:
- the model listing is a `seq<ModelInfo>`;
- the upload result is an `Upload` value;
- the status query is an oracle `statusAt: nat -> string`, whose k-th value is the state name from the k-th `get_file` call;
- the clock is an integer: each iteration advances it by the 2-unit sleep plus `extra(k) >= 0`, which stands for query latency and sleep overshoot;
- generation is a function `generate(model, file)`.

The deadline is the decreasing measure of the loop. Whatever the extra
delays, the wait makes at most 61 queries.

The code sleeps before it tests the deadline (`app.py:60-64`). With every
answer pending and no extra delay, it times out after 61 queries and 61
sleeps at 122 units (`AllPendingTimesOut`). Any extra delay in the first 60
iterations makes it time out after at most 60 queries
(`DelayedAllPendingTimesOutSooner`). Answers pending, pending, `ACTIVE` take
three queries and two sleeps (`PendingPendingActive`).

## Model

| member | source | states |
|---|---|---|
| ModelSelection.ContainsSubstring | app.py:34 | the name test holds exactly when the tag occurs at some position of the name |
| ModelSelection.Qualifies | app.py:33-34 | a model qualifies exactly when `generateContent` is among its supported methods and `flash` occurs somewhere in its name |
| ModelSelection.FirstQualifyingFrom | app.py:32-36 | the index found qualifies and every earlier index fails the test; none means no model qualifies |
| ModelSelection.SelectedName | app.py:31-36 | the chosen name is the fallback when no model qualifies, and otherwise the name of a qualifying model with every earlier model failing |
| ModelSelection.SelectModel | app.py:31-36 | the scan returns the fallback when no model qualifies (the empty list included), otherwise the name of the lowest-index qualifying model, and it matches `SelectedName` |
| ModelSelection.FirstQualifyingIsIndex | app.py:32-36 | a model that qualifies, with every earlier one failing, is the one whose name is chosen |
| ModelSelection.NoQualifyingModelGivesDefault | app.py:31-36 | with no qualifying model the chosen name is `models/gemini-1.5-flash` |
| ModelSelection.SelectedIsFirstQualifying | app.py:32-36 | if any model qualifies, the chosen name belongs to a qualifying model no later than it, with every earlier model failing |
| ModelSelection.LaterModelsIrrelevant | app.py:34-36 | models after a qualifying one do not change the chosen name (the `break`) |
| Readiness.ElapsedAfter | app.py:60-62 | after n sleeps the clock has advanced by at least 2n |
| Readiness.PollFrom | app.py:51-64 | the wait always makes at least one more query, never reports an upload failure, and a Ready outcome carries the queried file in state ACTIVE |
| Readiness.Ingest | app.py:41-64 | a failed upload, and only that, gives UploadFailed with its cause; a successful upload makes at least one query; Ready carries the uploaded name in state ACTIVE |
| Readiness.ExitsAt | app.py:51-64 | the wait can only exit after between 1 and 61 queries |
| Readiness.OutcomeAt | app.py:53-64 | an exit after k queries is Ready, RemoteFailed or TimedOut exactly as the k-th answer is ACTIVE, FAILED or pending, with k-1 sleeps, or k sleeps on a timeout |
| Readiness.PollFromExitsAt | app.py:51-64 | if the exit condition holds at query count k, the loop ends there with the outcome that the k-th answer determines |
| Readiness.PollFromEndsAtExit | app.py:51-64 | the query count at which the loop ends satisfies the exit condition |
| Readiness.ElapsedMonotone | app.py:60-62 | the clock never goes backwards |
| Readiness.ExitsAtUnique | app.py:51-64 | at most one query count satisfies the exit condition |
| Readiness.IngestCharacterised | app.py:41-64 | a failed upload gives UploadFailed; otherwise the wait ends after k queries if and only if the exit condition holds at k, with the outcome fixed by the k-th answer |
| Readiness.UploadFailureStopsBeforeQuery | app.py:41-45 | a failed upload stops the run with its cause, and the outcome does not depend on the status answers or the clock |
| Readiness.UploadStateIgnored | app.py:42-52 | the state the upload reported never affects the outcome; only the handle's name is used |
| Readiness.FirstQueryActive | app.py:51-54 | ACTIVE on the first query gives Ready after one query, no sleep and no elapsed time |
| Readiness.FailedAtQuery | app.py:55-57 | FAILED on the k-th query after pending answers, within the deadline, gives RemoteFailed after exactly k queries and k-1 sleeps |
| Readiness.TimeoutOnlyAfterSleep | app.py:59-64 | a timeout follows a pending answer and a sleep: one sleep per query, the last query was within the deadline, the final clock is past it |
| Readiness.QueryBound | app.py:60-64 | whatever the delays, the wait makes at most 61 queries and no more sleeps than queries |
| Readiness.ElapsedNoDelay | app.py:60 | with no extra delay the clock reads 2 units per sleep |
| Readiness.ElapsedIncludesDelay | app.py:60-62 | every earlier iteration's extra delay is included in the clock |
| Readiness.AllPendingTimesOut | app.py:60-64 | all answers pending with 2 units per sleep: TimedOut after 61 queries and 61 sleeps at 122 units |
| Readiness.DelayedAllPendingTimesOutSooner | app.py:60-64 | all answers pending with some extra delay in the first 60 iterations: TimedOut after at most 60 queries |
| Readiness.PendingPendingActive | app.py:51-62 | two pending answers (any names other than ACTIVE and FAILED) and then ACTIVE give Ready after 3 queries and 2 sleeps at 4 units |
| Readiness.AwaitReady | app.py:39-66 | the upload guard and the `while True` loop return exactly the reference outcome `Ingest`, Ready only in state ACTIVE, and UploadFailed exactly when the upload raised |
| CoachApp.AnalyzeVideo | app.py:31-79 | a report is produced exactly when the wait ends Ready, using the selected model and the queried file in state ACTIVE; every other exit is a stop with the wait's outcome |

## Left out

- The page layout, title, uploader widget, spinner, status text and report display are left out. They are display side effects.
- The API-key lookup from the secrets store and the client configuration are left out. They are configuration plumbing.
- Writing the temporary video file and the final cleanup are left out. Cleanup deletes the remote file, then removes the local file, and swallows any exception. Both are file-system and network I/O.
- The real model listing, upload, status query and generation calls are left out, and so is the prompt text. They are inputs here: a sequence, an `Upload` value and two functions.
- An exception raised by the model listing (on any page of it), by the status query or by generation is left out. The code does not handle it, so it would end the script.
- Readiness.QueryBound: the bound of 61 queries depends on a clock that never goes back, since each iteration adds 2 units plus a nonnegative delay. The real wall clock can be set back, and then the loop can make more queries.
- Real wall-clock time and floating-point seconds are left out. The clock is an integer, and `extra` stands for every delay beyond the 2-unit sleep.
- Readiness.AwaitReady: the handle's name is taken to stay the same across status queries. The oracle supplies only the state name of each returned file.
