# DiskSpool: the on-disk spool of the anticheat core

This project models the spool manager `DiskSpool` of `asyncanticheat-core`
and proves properties of the model. The spool manager keeps captured packet
records on local disk as batch files named `batch-<ms>-<token>.ndjson.gz`. It
has two parts:

- **Retention sweep (`enforceMaxSize`).** It converts the configured cap from
  megabytes to bytes. It sums the sizes of the directory's `.ndjson.gz` files.
  While the running total is over the cap, it deletes files oldest first.
- **Batch writer (`writeBatch`).** It runs the sweep first. It then writes one
  file holding a metadata line, followed by one line per record. On any
  exception it tries to delete the file and returns null.

The model has five modules:

- `Wrappers`: `Option`, which stands for a Java reference that may be null.
- `SpoolNames`: the batch file name and the sweep's suffix filter.
  - `Long.toString` of the epoch milliseconds is modelled, together with its
    inverse.
- `BatchFormat`: the lines of a batch file and a reader for them.
  - Lines are key/value maps over a small JSON value type.
  - Each line's text comes from a JSON encoder `enc`, which is a parameter.
  - The file's text is the decompressed content: each line's text followed
    by a newline.
  - `ReadBatch` is the consumer the format promises to serve. It splits the
    text at newlines, parses the metadata, checks `event_count` and parses
    the records.
- `Retention`: the sweep as functions over the directory.
  - `Matching` is the suffix filter and `TotalSize` the sum of the sizes.
  - `SortByMtime` is the stable sort by modification time.
  - `Evict` is the deletion loop.
  - `Swept` is the directory after the sweep.
- `Spool`: the class `DiskSpool`.
  - Its field `entries` is the spool directory: a sequence of files, each with
    a name, a size, a modification time and a content. The files given to the
    constructor come in the order `listFiles` returns them; a write places
    its new file last.
  - `EnforceMaxSize` and `WriteBatch` are methods that change `entries` step
    by step, as the Java code changes the directory.
  - Both are proved against `Swept` and `AfterWrite`.
  - The properties are lemmas about those two functions.

Inputs from the environment are parameters.

- The sweep's inputs are a `SweepIo`:
  - whether `listFiles` returned an array or null;
  - for each file, the result of `Files.deleteIfExists`: true (the file was
    deleted), false (no such file existed any more), or an exception (the
    file stays).
- The writer's inputs are a `WriteIo`:
  - `Instant.now()` and `System.currentTimeMillis()`, as two separate
    readings;
  - the `UUID.randomUUID()` token;
  - where writing throws, if anywhere: on open, after a given number of
    lines, or at flush or close;
  - the new file's size and modification time;
  - whether the clean-up `deleteIfExists` succeeds.

The model follows the code on these points:

- An exception from one delete ends the whole sweep, because the `catch`
  wraps the loop (DiskSpool.java:98-112). Of the two failures, only a
  `false` result lets the sweep go on to the next file, so one file whose
  delete throws stops the deletion of the files after it.
- A `false` result means the file no longer existed. The model removes it
  from the directory but, like the code, does not subtract its size from the
  running total. That total can therefore overstate what is left: the batch
  files left sum to at most the loop's final total, and to exactly that
  total when no delete returned false (`SweepTotal`).
- If the listing succeeds and no delete throws, the sweep ends within a
  positive cap (`SweepReachesCap`). A null listing or an exception can
  leave it above the cap.
- After a failed write, the clean-up delete can fail as well, and its
  exception is swallowed (DiskSpool.java:79-81). The partially written file
  then stays (`FailedWriteLeavesPrefix`). Once the file was opened, no file
  is left only when the clean-up succeeds (`FailedWriteLeavesNoFile`); a
  failed open leaves no new file either way.
- Java's stream `sorted` is stable on a list: files with equal modification
  times keep the order they were listed in (`SortStable`). The order of the
  files given to the constructor is an input. A write places its file last
  (`AfterWrite`), so later sweeps break ties by that fixed order.

## Model

All source paths are under `asyncanticheat-core/src/main/java/md/thomas/asyncanticheat/core/`; the table gives them in full.

| member | source | states |
|---|---|---|
| Spool.DiskSpool.constructor | asyncanticheat-core/src/main/java/md/thomas/asyncanticheat/core/DiskSpool.java:27-35 | keeps the directory, the cap and the encoder it is given; the directory's existing files are the initial state and have distinct names |
| Spool.DiskSpool.GetSpoolDir | asyncanticheat-core/src/main/java/md/thomas/asyncanticheat/core/DiskSpool.java:37-40 | always returns the directory fixed at construction |
| Spool.DiskSpool.EnforceMaxSize | asyncanticheat-core/src/main/java/md/thomas/asyncanticheat/core/DiskSpool.java:86-113 | the directory afterwards is `Swept` of the directory before, under the cap `MaxBytes(spoolMaxMb)`; file names stay distinct |
| Spool.SumSizes | asyncanticheat-core/src/main/java/md/thomas/asyncanticheat/core/DiskSpool.java:93-94 | the loop's total is the sum of the sizes of the listed files |
| Spool.DiskSpool.DeleteOldest | asyncanticheat-core/src/main/java/md/thomas/asyncanticheat/core/DiskSpool.java:98-112 | the loop over the sorted files removes from the directory exactly the files `Evict` records as removed (delete returned true or false), and nothing else |
| Retention.MaxBytes | asyncanticheat-core/src/main/java/md/thomas/asyncanticheat/core/DiskSpool.java:87 | the cap in bytes is the int cap times 2^20, always fits in a long, and is positive exactly when the cap in megabytes is |
| Retention.SweepDisabledByCap | asyncanticheat-core/src/main/java/md/thomas/asyncanticheat/core/DiskSpool.java:87-88 | a cap of zero or fewer megabytes leaves every directory unchanged |
| Retention.SweepUnlistable | asyncanticheat-core/src/main/java/md/thomas/asyncanticheat/core/DiskSpool.java:90-91 | a listing that returns null leaves the directory unchanged |
| Retention.SweepWithinCap | asyncanticheat-core/src/main/java/md/thomas/asyncanticheat/core/DiskSpool.java:91-95 | batch files summing to at most the cap (none at all included) are all kept |
| Retention.Matching | asyncanticheat-core/src/main/java/md/thomas/asyncanticheat/core/DiskSpool.java:90 | the `.ndjson.gz` filter of `listFiles`; its properties are `MatchingMembers` and `MatchingAll` |
| Retention.TotalSize | asyncanticheat-core/src/main/java/md/thomas/asyncanticheat/core/DiskSpool.java:93-94 | the sum of the sizes; `SumSizes` computes it and `SortKeepsTotal` and `SweepTotal` relate it to the sweep |
| Retention.Evict | asyncanticheat-core/src/main/java/md/thomas/asyncanticheat/core/DiskSpool.java:102-109 | the deletion loop; its properties are `EvictAccounts`, `EvictStops`, `EvictMinimal`, `EvictAllSucceed`, `EvictInAgeOrder` and `SurvivorsOfEvict` |
| Retention.EvictionOf | asyncanticheat-core/src/main/java/md/thomas/asyncanticheat/core/DiskSpool.java:86-113 | the loop's course with the early returns; `SweepDisabledByCap`, `SweepUnlistable`, `SweepWithinCap` and `SweepDeletesBatchFiles` state what it does |
| Retention.Swept | asyncanticheat-core/src/main/java/md/thomas/asyncanticheat/core/DiskSpool.java:86-113 | the directory after the sweep; `EnforceMaxSize` is proved against it, and `SweepKeepsOtherFiles`, `SweepTotal`, `SweepReachesCap` and `SweepOldestFirst` state its properties |
| SpoolNames.BatchName | asyncanticheat-core/src/main/java/md/thomas/asyncanticheat/core/DiskSpool.java:46 | the `batch-<ms>-<token>.ndjson.gz` name; `BatchNameIsSwept`, `DecimalRoundTrip` and `BatchNameInjective` state its properties |
| BatchFormat.MetaLine | asyncanticheat-core/src/main/java/md/thomas/asyncanticheat/core/DiskSpool.java:49-54 | the metadata object; `MetaRoundTrip` states its keys and that it reads back |
| BatchFormat.RecordLine | asyncanticheat-core/src/main/java/md/thomas/asyncanticheat/core/DiskSpool.java:65-72 | a record's object; `RecordRoundTrip` states its keys and that it reads back |
| BatchFormat.BatchLines | asyncanticheat-core/src/main/java/md/thomas/asyncanticheat/core/DiskSpool.java:49-74 | the objects of a batch; `BatchLinesShape` and `ReadBackBatch` state its shape and that it reads back |
| BatchFormat.Render | asyncanticheat-core/src/main/java/md/thomas/asyncanticheat/core/DiskSpool.java:60-74 | the text written; `RenderAppend` and `SplitRender` state how it grows and splits back |
| Spool.AfterWrite | asyncanticheat-core/src/main/java/md/thomas/asyncanticheat/core/DiskSpool.java:56-83 | the directory after a write; `WriteBatch` is proved against it, and `WriteAdmitsOneBatch`, `FailedWriteLeavesNoFile`, `FailedWriteLeavesPrefix` and `WriteTouchesOnlyTarget` state its properties |
| Retention.MatchingMembers | asyncanticheat-core/src/main/java/md/thomas/asyncanticheat/core/DiskSpool.java:90 | the listing holds exactly the directory's files whose name ends in `.ndjson.gz` |
| Retention.MatchingAll | asyncanticheat-core/src/main/java/md/thomas/asyncanticheat/core/DiskSpool.java:90 | a directory of batch files only is listed whole and in order |
| Retention.SweepDeletesBatchFiles | asyncanticheat-core/src/main/java/md/thomas/asyncanticheat/core/DiskSpool.java:90-109 | every file the sweep deletes or finds gone was in the directory and has a batch file name |
| Retention.SweepKeepsOtherFiles | asyncanticheat-core/src/main/java/md/thomas/asyncanticheat/core/DiskSpool.java:90 | the files that are not batch files are exactly the same, in the same order, after the sweep |
| Retention.SortByMtime | asyncanticheat-core/src/main/java/md/thomas/asyncanticheat/core/DiskSpool.java:99-101 | the sorted list is a permutation of the listing |
| Retention.SortSorted | asyncanticheat-core/src/main/java/md/thomas/asyncanticheat/core/DiskSpool.java:99-101 | the sorted list is in non-decreasing `lastModified` order |
| Retention.SortOfSorted | asyncanticheat-core/src/main/java/md/thomas/asyncanticheat/core/DiskSpool.java:99-101 | a listing already in age order comes out unchanged |
| Retention.SortStable | asyncanticheat-core/src/main/java/md/thomas/asyncanticheat/core/DiskSpool.java:99-101 | the sort is stable: for every modification time, the files of that time come out in their listing order |
| Retention.SortKeepsTotal | asyncanticheat-core/src/main/java/md/thomas/asyncanticheat/core/DiskSpool.java:93-101 | sorting does not change the total the loop starts from |
| Retention.EvictAccounts | asyncanticheat-core/src/main/java/md/thomas/asyncanticheat/core/DiskSpool.java:102-109 | the loop visits a prefix of the sorted files; the deleted files are exactly the visited ones whose delete returned true; the files gone are exactly the visited ones whose delete did not throw; the running total drops by exactly the deleted files' sizes |
| Retention.EvictStops | asyncanticheat-core/src/main/java/md/thomas/asyncanticheat/core/DiskSpool.java:102-112 | short of the end of the list, the loop stops only within the cap or at an exception; an exception can come only at the last visit |
| Retention.EvictMinimal | asyncanticheat-core/src/main/java/md/thomas/asyncanticheat/core/DiskSpool.java:102-103 | every visit happens while the running total is still over the cap, so nothing is deleted once the total is within it |
| Retention.EvictAllSucceed | asyncanticheat-core/src/main/java/md/thomas/asyncanticheat/core/DiskSpool.java:102-109 | when every delete succeeds, the deleted files are a prefix of the sorted order, and the loop ends within the cap or after the last file |
| Retention.EvictWithoutThrow | asyncanticheat-core/src/main/java/md/thomas/asyncanticheat/core/DiskSpool.java:102-109 | with a positive cap and no delete throwing, the start total less the sizes of the files gone is within the cap |
| Retention.EvictInAgeOrder | asyncanticheat-core/src/main/java/md/thomas/asyncanticheat/core/DiskSpool.java:99-109 | files are deleted in age order, and none is newer than a file the loop did not reach |
| Retention.SurvivorsOfEvict | asyncanticheat-core/src/main/java/md/thomas/asyncanticheat/core/DiskSpool.java:102-109 | over a list sorted by age, every file still there after the loop is at least as new as every file deleted |
| Retention.SweepOldestFirst | asyncanticheat-core/src/main/java/md/thomas/asyncanticheat/core/DiskSpool.java:99-109 | over the whole sweep: deletions in age order; none newer than an unreached file; every surviving batch file at least as new as every deleted one |
| Retention.SweepLeftovers | asyncanticheat-core/src/main/java/md/thomas/asyncanticheat/core/DiskSpool.java:90-109 | every surviving batch file was in the sorted listing and is not among the files gone |
| Retention.SweepTotal | asyncanticheat-core/src/main/java/md/thomas/asyncanticheat/core/DiskSpool.java:93-109 | the batch files left and the files gone sum to the batch files before; what is left is at most the loop's final running total, and exactly that when no delete returned false |
| Retention.SweepReachesCap | asyncanticheat-core/src/main/java/md/thomas/asyncanticheat/core/DiskSpool.java:86-113 | with a positive cap, a listing that succeeds and no delete throwing, the batch files left sum to at most the cap |
| Spool.CapScenarioSweep | asyncanticheat-core/src/main/java/md/thomas/asyncanticheat/core/DiskSpool.java:86-113 | with a 10 MB cap over four 3 MB batch files A to D, oldest first, the sweep deletes A alone |
| Spool.CapScenario | asyncanticheat-core/src/main/java/md/thomas/asyncanticheat/core/DiskSpool.java:42-113 | writing a batch into that spool leaves B, C, D and the new file |
| SpoolNames.BatchNameIsSwept | asyncanticheat-core/src/main/java/md/thomas/asyncanticheat/core/DiskSpool.java:46 | every new batch name starts with `batch-` and passes the sweep's `.ndjson.gz` filter (line 90) |
| SpoolNames.DecimalRoundTrip | asyncanticheat-core/src/main/java/md/thomas/asyncanticheat/core/DiskSpool.java:46 | the decimal text of the epoch milliseconds in the name reads back as the same number, negative values included |
| SpoolNames.DecimalStringInjective | asyncanticheat-core/src/main/java/md/thomas/asyncanticheat/core/DiskSpool.java:46 | two millisecond values give the same text exactly when they are equal |
| SpoolNames.BatchNameInjective | asyncanticheat-core/src/main/java/md/thomas/asyncanticheat/core/DiskSpool.java:46 | with tokens of one length (UUID text), two names coincide exactly when both the milliseconds and the tokens do |
| BatchFormat.MetaRoundTrip | asyncanticheat-core/src/main/java/md/thomas/asyncanticheat/core/DiskSpool.java:49-54 | the metadata object has exactly the keys `server_id`, `session_id`, `created_at_ms`, `event_count`, and reads back as the metadata it was built from |
| BatchFormat.RecordRoundTrip | asyncanticheat-core/src/main/java/md/thomas/asyncanticheat/core/DiskSpool.java:65-72 | a record's object has exactly the keys `ts`, `dir`, `pkt`, `uuid`, `name`, `fields`, and reads back as that record, direction included |
| BatchFormat.RecordLines | asyncanticheat-core/src/main/java/md/thomas/asyncanticheat/core/DiskSpool.java:64-74 | one object per record |
| BatchFormat.BatchLinesShape | asyncanticheat-core/src/main/java/md/thomas/asyncanticheat/core/DiskSpool.java:49-74 | a batch is `records.size() + 1` objects; the first is the metadata with `event_count` equal to `records.size()`; object i+1 has the record keys and encodes record i |
| BatchFormat.RenderAppend | asyncanticheat-core/src/main/java/md/thomas/asyncanticheat/core/DiskSpool.java:61-62 | writing one more object and a newline appends that object's text and one newline |
| BatchFormat.SplitRender | asyncanticheat-core/src/main/java/md/thomas/asyncanticheat/core/DiskSpool.java:60-74 | splitting the written text at newlines gives back one text per object, in order, when no object's text holds a raw newline |
| BatchFormat.RecordsRoundTrip | asyncanticheat-core/src/main/java/md/thomas/asyncanticheat/core/DiskSpool.java:64-74 | parsing the record lines gives back the records in input order, given that the parser inverts the encoder on those lines |
| BatchFormat.ReadBackBatch | asyncanticheat-core/src/main/java/md/thomas/asyncanticheat/core/DiskSpool.java:49-74 | reading back a written batch yields its metadata, with `event_count` equal to the number of record lines, followed by exactly the input records in order, whenever the parser gives back each line of that batch and none holds a raw newline |
| Spool.DiskSpool.WriteLines | asyncanticheat-core/src/main/java/md/thomas/asyncanticheat/core/DiskSpool.java:56-76 | the try block fails exactly when some step throws, and the text written is the rendering of the first `LinesWritten` objects of the batch |
| Spool.DiskSpool.WriteBatch | asyncanticheat-core/src/main/java/md/thomas/asyncanticheat/core/DiskSpool.java:42-84 | sweeps first; returns the `batch-<ms>-<token>.ndjson.gz` name exactly when nothing throws, null otherwise; the directory afterwards is `AfterWrite` of the swept directory; names stay distinct |
| Spool.WriteAdmitsOneBatch | asyncanticheat-core/src/main/java/md/thomas/asyncanticheat/core/DiskSpool.java:56-76 | a successful write under a fresh name appends exactly one file, holding the whole batch text, to the swept directory |
| Spool.FailedWriteLeavesNoFile | asyncanticheat-core/src/main/java/md/thomas/asyncanticheat/core/DiskSpool.java:77-83 | after a failed write whose clean-up succeeds, no file has the target name; with a fresh name the directory is exactly the swept one |
| Spool.FailedWriteLeavesPrefix | asyncanticheat-core/src/main/java/md/thomas/asyncanticheat/core/DiskSpool.java:77-83 | when the clean-up fails too, the file left behind holds a prefix of the batch text, and fewer lines than the batch unless the fault came at flush or close |
| Spool.WriteTouchesOnlyTarget | asyncanticheat-core/src/main/java/md/thomas/asyncanticheat/core/DiskSpool.java:42-84 | whatever happens, a write changes no file of the swept directory except its own target |
| Spool.WrittenBatchReadsBack | asyncanticheat-core/src/main/java/md/thomas/asyncanticheat/core/DiskSpool.java:42-84 | the file a successful call adds passes the next sweep's filter and reads back as its metadata followed by the input records in order, whenever the parser gives back each line of that batch and none holds a raw newline |

## Left out

- gzip compression is not modelled. A file's content is its decompressed text.
- Gson is a parameter, `toJson` (or `enc`), from a line to its text. Reading back assumes two things of the lines of the batch written, and of no other line: the parser inverts the encoder on each of them, and no encoding of them holds a raw newline.
- BatchFormat.ReadBackBatch: under Gson's default configuration a map member whose value is null is dropped from the output, so a record whose `fields` hold a null-valued member does not read back as written; the read-back lemmas (`ReadBackBatch`, `RecordsRoundTrip`, `Spool.WrittenBatchReadsBack`) cover only batches whose lines the parser does give back.
- JSON values are modelled with integer numbers only. Floating-point field values are not modelled.
- Real file-system I/O becomes inputs: `listFiles`, `length`, `lastModified`, the outcome of each delete, and where writing throws.
- The constructor's `mkdirs` (DiskSpool.java:32-34) is not modelled, because a failure there only logs. The directory's existing files are the constructor's input.
- Logging is left out, because it changes no state the model tracks.
- Concurrent callers are left out. Each call is modelled as running alone.
- `AsyncAnticheatConfig`, `AcLogger` and `PacketRecord` are not part of this model.
  - The configured cap `getSpoolMaxMb()` is read once, at construction, as the constant `spoolMaxMb`.
  - A `PacketRecord` is the six values its getters return.
- Spool.SumSizes: does not model the wrap-around of a Java `long` when the file sizes sum to more than 2^63 - 1, because no real directory reaches that size.
- Spool.DiskSpool.WriteLines: a failed write is modelled as leaving exactly the lines handed to the writer before the fault. `BufferedWriter` and gzip may in fact hold back a suffix of that text, so the on-disk bytes are not modelled.
- Spool.DiskSpool.WriteBatch: returns the new file's name where the Java returns a `File` in the spool directory.
- Spool.DiskSpool.WriteBatch: places the new file last in `entries`. The order `listFiles` would later return it in is unspecified, so the model fixes one order, which then decides ties between equal modification times in later sweeps.
- SpoolNames.BatchNameInjective: uniqueness of the random UUID cannot be proved. The model proves only that names differ whenever the (millisecond, token) pairs differ, for tokens of equal length.
