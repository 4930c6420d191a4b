# Data usage tracker of the Auklet Java agent, in Dafny

`DataUsageTracker` keeps the number of bytes the Auklet agent has sent to its sink,
and persists it across restarts in a small JSON file, `usage`, holding
`{"usage": n}`. Writes to the file are debounced. Every change of the count
(`addMoreData`, `reset`) cancels the write task that is still waiting and schedules
a new one-shot task, five seconds later, that carries a snapshot of the count. A
burst of changes therefore ends in a single write of the last value. On `start`
the tracker creates the file with 0 when it is missing. It then reads the count
from the file's `usage` field, and falls back to zero when reading or parsing fails.

The project has three files:

- `usage_spec.dfy`, module `UsageSpec`. The whole state is one value, `Tracker`.
  It holds the count, the handle to the waiting task (`currentWriteTask`), the
  scheduler's queue of tasks that will still run (id to captured value), the set of
  cancelled task ids, the scheduler's next id, the file, and a log of every value
  written. Each step of the source is a function on it. `Valid` is the invariant:
  every queued task is the one the handle names, so at most one write is ever
  waiting. `Synced` says that the one waiting write carries the current count.
- `coalescing.dfy`, module `Coalescing`. Bursts of mutations with no task running
  in between, and what follows a burst: additivity, reset, coalescing,
  last-value-wins, round trip through a restart, and a concrete run.
- `data_usage_tracker.dfy`, module `Config`. The class `DataUsageTracker`. Its
  fields are updated in place, and each method is proved to perform the matching
  `UsageSpec` step on `Model()`.

Each section of the source that runs under `synchronized (lock)` is one atomic step.
The scheduler running a task is an explicit step, `RunTask` / `RunScheduledTask`,
applied to a task id. Every failure the environment can raise is an explicit
parameter of the step that meets it:

- `scheduleOk` says whether the scheduler accepted the task; a refusal is the
  `AukletException` that `saveUsage` only logs.
- `fault` is the `IOException` or `SecurityException` raised by a file write or read.

The file is a value of type `Option<Document>`: `None` when it does not exist,
`Usage(n)`, `NoUsageKey` (valid JSON without the field) or `Malformed`. Java's
`long` is the newtype `Long`, and `addMoreData`'s `+=` wraps around as Java's does
(`Wrap`).

Three behaviours of the code are worth knowing:

- `start` catches only `IOException` and `IllegalArgumentException`
  (DataUsageTracker.java line 46), so a `SecurityException` from creating or
  reading the file escapes `start`. `Start` returns what escapes: nothing for an
  `IOException` or a malformed document, and only a `SecurityFault` otherwise.
- A file write either replaces the whole file or fails without touching it; this
  is an assumption of the model, since the write itself is delegated to
  `FileUtil.writeUtf8`. Under it, when the creating write in `start` fails, the
  file still does not exist afterwards.
- When the scheduler refuses a task, the handle keeps naming the task that was
  just cancelled, because the assignment at line 95 never happens. This is
  harmless: cancelling that task again changes nothing, and it will never run.

## Model

| member | source | states |
|---|---|---|
| UsageSpec.Wrap | src/main/java/io/auklet/config/DataUsageTracker.java:72 | the result of Java's `long` addition is the one `long` congruent to the exact sum modulo 2^64, and equals the sum when that is within range |
| UsageSpec.Initial | src/main/java/io/auklet/config/DataUsageTracker.java:30-32 | a new tracker has count 0, a null handle, nothing queued and nothing written, and satisfies the invariant |
| UsageSpec.ParsedUsage | src/main/java/io/auklet/config/DataUsageTracker.java:44-45 | parsing fails (the IllegalArgumentException) exactly for malformed text; a `{"usage": n}` document gives n, and a document without the field gives the default 0 |
| UsageSpec.WriteUsageToDisk | src/main/java/io/auklet/config/DataUsageTracker.java:124-128 | a successful write leaves a file whose parsed usage is exactly the value written and logs one write; a failed write changes nothing; nothing but the file and the log ever changes |
| UsageSpec.Cancel | src/main/java/io/auklet/config/DataUsageTracker.java:93 | `cancel(false)` removes the task from the scheduler's queue (it will never run) and records it as cancelled, and nothing else is recorded; cancelling a task that is not queued (already ran or already cancelled) changes nothing; the invariant is kept |
| UsageSpec.SaveUsage | src/main/java/io/auklet/config/DataUsageTracker.java:90-115 | the previous waiting task is cancelled, and no other task is; when the schedule succeeds, the handle names a fresh task carrying the given value and it is the only queued task; when it fails, nothing is queued and the handle is unchanged; count and file untouched; invariant kept |
| UsageSpec.AddMoreData | src/main/java/io/auklet/config/DataUsageTracker.java:69-75 | a delta below 1 changes nothing (count, handle, queue, file); otherwise the count grows by exactly the delta when no overflow occurs (and modulo 2^64 always), even when scheduling fails; with a successful schedule the one waiting write carries the new count, with a refused one nothing is queued; no write happens during the call |
| UsageSpec.Reset | src/main/java/io/auklet/config/DataUsageTracker.java:78-83 | the count becomes 0 whatever it was; with a successful schedule the one waiting write is a fresh task carrying 0; with a refused one nothing is queued; the previous waiting task is cancelled; invariant kept |
| UsageSpec.RunTask | src/main/java/io/auklet/config/DataUsageTracker.java:96-110 | a cancelled task (or one no longer queued) changes nothing; a queued task clears the handle, leaves nothing queued, and writes exactly its captured value; a write failure leaves the file as it was; the count, the cancelled set and the scheduler's next id are never touched; when the waiting write carries the current count, running it persists that count |
| UsageSpec.Uncaught | src/main/java/io/auklet/config/DataUsageTracker.java:46-48 | of the file faults, exactly the `IOException` is caught by `start`'s handler; a SecurityException escapes as itself |
| UsageSpec.Start | src/main/java/io/auklet/config/DataUsageTracker.java:34-49 | an IOException from the creating write or the read raises nothing, and a SecurityException from either escapes as itself (a failed creating write skips the read); a SecurityException escapes only from one of those two; a failed creating write leaves the file missing; a missing file is written as 0 and the count becomes 0; an existing file is never rewritten; a readable document sets the count to its usage field, or 0 when the field is absent; a malformed document or a read failure leaves the count as it was; handle and queue untouched; invariant kept |
| Coalescing.Burst | src/main/java/io/auklet/config/DataUsageTracker.java:69-95 | a burst of mutations writes nothing to the file, never un-cancels a task, and keeps the invariant |
| Coalescing.IneffectiveBurstIsNoop | src/main/java/io/auklet/config/DataUsageTracker.java:69-70 | a burst of deltas below 1 leaves the whole state unchanged |
| Coalescing.BurstAppend | src/main/java/io/auklet/config/DataUsageTracker.java:69-83 | running two bursts in turn is running their concatenation |
| Coalescing.AddsAccumulate | src/main/java/io/auklet/config/DataUsageTracker.java:69-75 | additivity: a burst of `addMoreData` calls leaves the initial count plus the sum of the deltas of at least 1, provided that sum stays within a `long` |
| Coalescing.ResetThenAdds | src/main/java/io/auklet/config/DataUsageTracker.java:69-83 | after a reset, the count is exactly the sum of the deltas added since |
| Coalescing.BurstCoalesces | src/main/java/io/auklet/config/DataUsageTracker.java:90-95 | after a burst containing at least one effective mutation, exactly one write is waiting, it is the last task scheduled, it carries the final count, and every other task scheduled during the burst was cancelled |
| Coalescing.BurstThenRunWritesLastValue | src/main/java/io/auklet/config/DataUsageTracker.java:92-110 | last value wins: running the waiting task after a burst puts the final count in the file with exactly one write since the burst began, and running any earlier task of the burst does nothing |
| Coalescing.RunThenRestartReadsBack | src/main/java/io/auklet/config/DataUsageTracker.java:34-49 | round trip: after the waiting write runs, a tracker restarted on the file reads back the count that was written, and nothing escapes |
| Coalescing.StartFallsBackToZero | src/main/java/io/auklet/config/DataUsageTracker.java:32-49 | starting a new tracker gives the file's usage field when the file reads as a `{"usage": n}` document, and 0 in every other case (missing file, missing field, malformed text, read failure) |
| Coalescing.ThreeAddsThenReset | src/main/java/io/auklet/config/DataUsageTracker.java:34-128 | from a missing file: the file is created with 0; three deltas of 100 and the waiting task leave 300 in the file after one more write; a reset and its task leave 0 |
| Config.DataUsageTracker.constructor | src/main/java/io/auklet/config/DataUsageTracker.java:30-32 | the new object is the initial tracker on the file as found |
| Config.DataUsageTracker.Start | src/main/java/io/auklet/config/DataUsageTracker.java:34-49 | performs `UsageSpec.Start` in place and returns what escapes; only a SecurityException escapes; the count is the file's usage when readable, 0 after creating a missing file |
| Config.DataUsageTracker.GetBytesSent | src/main/java/io/auklet/config/DataUsageTracker.java:58-62 | returns the current count and changes nothing |
| Config.DataUsageTracker.AddMoreData | src/main/java/io/auklet/config/DataUsageTracker.java:69-75 | performs `UsageSpec.AddMoreData` in place: no change for a delta below 1, otherwise the count grows by the delta and the only scheduled task is the fresh one carrying it |
| Config.DataUsageTracker.Reset | src/main/java/io/auklet/config/DataUsageTracker.java:78-83 | performs `UsageSpec.Reset` in place: count 0, the only scheduled task a fresh one carrying 0 |
| Config.DataUsageTracker.SaveUsage | src/main/java/io/auklet/config/DataUsageTracker.java:90-115 | performs `UsageSpec.SaveUsage` in place: the task the handle named is no longer scheduled |
| Config.DataUsageTracker.CancelTask | src/main/java/io/auklet/config/DataUsageTracker.java:93 | performs `UsageSpec.Cancel` in place: the task is no longer scheduled |
| Config.DataUsageTracker.RunScheduledTask | src/main/java/io/auklet/config/DataUsageTracker.java:96-110 | performs `UsageSpec.RunTask` in place: a cancelled task changes nothing; a queued one clears the handle, leaves nothing scheduled and writes its captured value |
| Config.DataUsageTracker.WriteUsageToDisk | src/main/java/io/auklet/config/DataUsageTracker.java:124-128 | performs `UsageSpec.WriteUsageToDisk` in place and raises the file system's fault |

## Left out

- Threads and the `synchronized (lock)` monitor: each locked section is one atomic step. So the race in which a task that is already running when `cancel(false)` is called clears the handle of a newer task is not modelled. Nor is the case where a task that has started but not yet cleared the handle still writes after it was superseded.
- The 5-second delay and the agent's scheduler: running a task is an explicit step applied to a task id. The model says which task can still run and what it does, not when it runs.
- JSON building and parsing (mjson, `JsonUtil`) and byte-level file I/O (`FileUtil`): the file is a `Document` value. A `usage` field that is not a number, or does not fit in a `long`, is not modelled.
- A write that fails part-way, leaving an empty or truncated file (which the next `start` would read as malformed), is not modelled: `WriteUsageToDisk` either replaces the file or leaves it as it was.
- Logging, the `LOUD_SECURITY_EXCEPTIONS` flag, `getName`, and the `AbstractConfigFile` / `Auklet` lifecycle (`super.start`, `getAgent`): these collaborators have no behaviour to state here. An `AukletException` from `super.start` is not modelled.
- A `SecurityException` from `file.exists()` in `start` is not modelled. Only the faults of the creating write and of the read are parameters.
- Coalescing.AddsAccumulate: states additivity only while the sum stays within a `long`. Beyond that, `AddMoreData` wraps around, as Java's `+=` does.
- Coalescing.Burst: bursts assume every schedule succeeds. A refused schedule is covered one call at a time by the contracts of `SaveUsage`, `AddMoreData` and `Reset`.
