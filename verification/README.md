# Cassandra Data Migrator — verified model of the diff and copy-by-key engines

This project models the core of the Cassandra Data Migrator in Dafny. The
migrator copies rows from an *origin* Cassandra table to a *target* table and
validates the copy. Three parts are modelled.

- **The diff job** (`DiffJobSession`). For one partition range it:
  - indexes the target rows by primary key;
  - scans the origin rows, filtering them, expanding each into records, and
    applying the guardrail;
  - buffers the records and diffs a buffer once it outgrows the fetch size
    after a record found on the target;
  - classifies each record as MISSING, MISMATCH or VALID, and auto-corrects by
    upserting the origin record when configured;
  - retries the whole range up to `maxRetries + 1` times, merging every
    attempt's counters into the job counters and recording the range as
    failed when the last attempt fails.

  The per-column comparison `isDifferent` is modelled as the sequence of its
  diff entries.
- **The origin select statement** (`AbstractOriginSelectStatement`):
  - record validity and the record filter (key state, text column filter,
    write-timestamp window);
  - the largest TTL and write timestamp of a row;
  - the select text with its `TTL(..)` and `WRITETIME(..)` projections, which
    extend the result columns, the result types and the projection positions.
- **The copy-by-key job** (`CopyPKJobSession`):
  - parses key strings (`" %% "`-separated fields, one parser per key column);
  - looks up each origin row, filters it and upserts it;
  - counts READ, MISSING, SKIPPED and WRITTEN, and reports progress at every
    multiple of the report interval plus once at the end.

Modules:

| file | module | contents |
|---|---|---|
| `common.dfy` | `Common` | values, rows, primary keys, records, counters |
| `text.dfy` | `Text` | ASCII upper-casing, `String.trim`, `equalsIgnoreCase`, `String.split` on a literal separator, and join |
| `origin_select.dfy` | `OriginSelect` | filtering, largest TTL and write timestamp, the `OriginSelectStatement` class |
| `column_diff.dfy` | `ColumnDiff` | the per-column comparison and the diff entries of a record |
| `diff_job.dfy` | `DiffJob` | record classification, target index, scan, buffering, attempts and retries, the `DiffJobSession` class |
| `copy_pk_job.dfy` | `CopyPKJob` | key parsing, the per-key step, and the `CopyPKJobSession` class |

Stateful code is modelled as classes whose methods update fields. Each method
is proved against a pure specification function:
- `DiffRecord`, `DiffAll` and `AttemptEffect` specify the diff job;
- `AfterAttempts` specifies its retry loop;
- `StepKey`, `RunKeys` and `RunBatches` specify the copy job.

Lemmas then state the properties of those functions.

Everything that reaches a database, a file or the log is an input:
- the rows a range select returns;
- the attempt at which an origin read throws;
- the key factory and the record expansion;
- the guardrail verdict;
- whether an upsert succeeds;
- the text parsers of the key columns.

Each is a field of a services value (`DiffServices`, `ColumnServices`,
`CopyServices`), a field of an `Attempt`, or a parameter.

Where the project's documentation describes a different behaviour, the model
follows the code:
- **Counters of failed attempts.** A failed attempt's counters are still
  merged into the job counters, in the `finally` block.
- **VALID counts.** A record whose values agree counts VALID twice. A
  mismatched record counts VALID once, and not at all when its corrective
  upsert throws.
- **Unmapped columns.** A target column that maps to no origin column becomes
  an exception entry of the diff text. It does not end the comparison.
- **Key parse failures.** A key field that cannot be parsed, or a key string
  with more fields than the key has columns, throws out of the copy loop and
  ends the run. Such a key is not counted MISSING.
- **Filter-column read failures.** A filter column that cannot be read as text
  makes the filter throw. This fails the diff attempt or ends the copy run.
- **Key splitting.** Key strings are split the way Java's `String.split` does,
  which drops trailing empty fields.
- **Progress reports in the copy job.** The progress-report check runs only
  after a successful write. A report interval of zero makes that check throw,
  because the code takes a remainder by zero.

The exceptions the code can raise on its inputs are modelled as failures:
- a negative fetch size makes allocating the diff buffer throw, so every diff
  attempt fails and the range is recorded as failed;
- a record without a write timestamp makes the write-timestamp filter throw;
- the select by key can throw, which ends the copy run;
- a negative or too large TTL or WRITETIME column index makes building the
  select throw.

## Model

| member | source | states |
|---|---|---|
| `Text.ToUpper` | src/main/java/com/datastax/cdm/job/DiffJobSession.java:282-283 | upper-casing keeps the length, maps every ASCII lower-case letter to its capital and leaves every other character unchanged |
| `Text.FindFrom` | src/main/java/com/datastax/cdm/job/CopyPKJobSession.java:107 | the result is the first occurrence of the separator at or after the start; none means it occurs nowhere after it |
| `Text.Trim` | src/main/java/datastax/astra/migrate/cql/statements/AbstractOriginSelectStatement.java:59 | the trimmed text is an infix neither starting nor ending with a character up to U+0020, and every character removed is one |
| `Text.DropTrailingEmpty` | src/main/java/com/datastax/cdm/job/CopyPKJobSession.java:107 | the pieces kept are a prefix ending in a non-empty piece, and every piece dropped is empty |
| `Text.JoinSplitAll` | src/main/java/com/datastax/cdm/job/CopyPKJobSession.java:107 | joining the pieces of a split with the separator gives back the split text |
| `Text.SplitAllJoin` | src/main/java/com/datastax/cdm/job/CopyPKJobSession.java:107 | splitting a join of fields none of which starts an occurrence of the separator, within it or across into the next separator, gives back the fields |
| `Text.JavaSplitJoin` | src/main/java/com/datastax/cdm/job/CopyPKJobSession.java:107 | `String.split` undoes the join of such fields when the last field is not empty |
| `OriginSelect.IsRecordValid` | src/main/java/datastax/astra/migrate/cql/statements/AbstractOriginSelectStatement.java:36-48 | judging fails exactly for an absent record; a record is valid iff its key is not in ERROR state, so a WARNING key is valid |
| `OriginSelect.ColumnFilterMatches` | src/main/java/datastax/astra/migrate/cql/statements/AbstractOriginSelectStatement.java:57-63 | reading the filter column fails iff it is not a text cell; it matches iff its trimmed text equals the configured value ignoring case |
| `OriginSelect.ShouldFilterRecord` | src/main/java/datastax/astra/migrate/cql/statements/AbstractOriginSelectStatement.java:53-75 | absent and ERROR-key records are filtered; failure iff a valid record's filter column is unreadable, or its column does not match while the timestamp filter is on and its write timestamp is null; a matching column filters; a record is kept iff it is valid, its column does not match and, with the timestamp filter on, its write timestamp is present and inside the inclusive window |
| `OriginSelect.LargestOf` | src/main/java/datastax/astra/migrate/cql/statements/AbstractOriginSelectStatement.java:77-93 | none iff there are no indexes; otherwise a value read at some index and no smaller than any value read |
| `OriginSelect.OriginSelectStatement.GetLargestWriteTimeStamp` | src/main/java/datastax/astra/migrate/cql/statements/AbstractOriginSelectStatement.java:77-84 | none iff no WRITETIME projection is tracked; otherwise the maximum of the row's values at the tracked positions, attained at one of them |
| `OriginSelect.OriginSelectStatement.GetLargestTTL` | src/main/java/datastax/astra/migrate/cql/statements/AbstractOriginSelectStatement.java:86-93 | none iff no TTL projection is tracked; otherwise the maximum of the row's values at the tracked positions, attained at one of them |
| `OriginSelect.ProjectedNames` | src/main/java/datastax/astra/migrate/cql/statements/AbstractOriginSelectStatement.java:95-114 | after the TTL then the WRITETIME projections the columns keep their prefix, the j-th TTL column is named `ttl_` followed by its column's name and the j-th WRITETIME column `writetime_` followed by its column's name |
| `OriginSelect.ExtendedNames` | src/main/java/datastax/astra/migrate/cql/statements/AbstractOriginSelectStatement.java:98-103 | extending keeps the earlier names, the j-th appended name is the alias followed by the name of column `cols[j]` at that moment, and every column is a result column afterwards |
| `OriginSelect.ProjectionsExtend` | src/main/java/datastax/astra/migrate/cql/statements/AbstractOriginSelectStatement.java:95-113 | appending result columns does not change the projection text of columns already present |
| `OriginSelect.OriginSelectStatement.constructor` | src/main/java/datastax/astra/migrate/cql/statements/AbstractOriginSelectStatement.java:26-27 | the result columns and types start as the configured origin columns and types, with no projection tracked |
| `OriginSelect.OriginSelectStatement.AppendProjection` | src/main/java/datastax/astra/migrate/cql/statements/AbstractOriginSelectStatement.java:99-102 | one projection appends the aliased name of an existing column and its type, and records the new column's position in the TTL or WRITETIME list only |
| `OriginSelect.OriginSelectStatement.AppendNext` | src/main/java/datastax/astra/migrate/cql/statements/AbstractOriginSelectStatement.java:98-103 | one more projection of the loop keeps the loop invariant: names, types, positions and text of the projections so far |
| `OriginSelect.OriginSelectStatement.AppendProjections` | src/main/java/datastax/astra/migrate/cql/statements/AbstractOriginSelectStatement.java:98-111 | succeeds iff every column index names a result column when reached; then the columns are the extended names, the types gain one copy per column, the positions are consecutive, and the text is the projections in order |
| `OriginSelect.OriginSelectStatement.TtlAndWritetimeCols` | src/main/java/datastax/astra/migrate/cql/statements/AbstractOriginSelectStatement.java:95-114 | columns and types grow in lockstep and keep their prefix; succeeds iff every TTL then WRITETIME column index is non-negative and names a result column when reached; then TTL names and int types come before WRITETIME names and bigint types, positions are recorded, and the fragment is the TTL projections followed by the WRITETIME ones |
| `OriginSelect.OriginSelectStatement.ProjectedPositions` | src/main/java/datastax/astra/migrate/cql/statements/AbstractOriginSelectStatement.java:95-114 | after the projections, each recorded TTL or WRITETIME position is a result column named `ttl_` or `writetime_` followed by the name of the column it projects |
| `OriginSelect.OriginSelectStatement.BuildStatement` | src/main/java/datastax/astra/migrate/cql/statements/AbstractOriginSelectStatement.java:95-122 | columns and types grow in lockstep and keep their prefix; succeeds iff every TTL then WRITETIME index names a result column when reached; then the columns are extended by the projection names, the types by int and bigint copies, the positions are recorded, each new position holds the projection of its column, and the stored statement is `SELECT` + the column list + the projections + `FROM` table + `WHERE` binds; on failure the statement is unchanged |
| `ColumnDiff.OriginValue` | src/main/java/com/datastax/cdm/job/DiffJobSession.java:263-279 | a mapped column reads its origin cell, an unmapped one the exploded map key or value when it is that column, and otherwise reading throws |
| `ColumnDiff.CompareColumn` | src/main/java/com/datastax/cdm/job/DiffJobSession.java:257-307 | constant columns add nothing; conversion or mapping failures add exception entries; a column adds nothing iff it is constant or it reads and is a TTL/WRITETIME column, has a null origin, or is equal; a value mismatch is a real difference of a mapped column |
| `ColumnDiff.EntriesExactlyFromColumns` | src/main/java/com/datastax/cdm/job/DiffJobSession.java:248-312 | an entry is in the diff text iff some compared column contributed it |
| `ColumnDiff.EntriesEmptyIffNoColumn` | src/main/java/com/datastax/cdm/job/DiffJobSession.java:248-312 | the diff text has at most one entry per column and is empty iff no column contributes one |
| `ColumnDiff.IsDifferentEmptyIffAllEqual` | src/main/java/com/datastax/cdm/job/DiffJobSession.java:248-313 | a record's diff text is empty iff every target column is constant, excluded or equal |
| `ColumnDiff.ProjectionAliasesExcluded` | src/main/java/com/datastax/cdm/job/DiffJobSession.java:282-286 | the `ttl_` and `writetime_` aliases the select gives its projections are always excluded from comparison |
| `DiffJob.DiffRecord` | src/main/java/com/datastax/cdm/job/DiffJobSession.java:206-246 | diffing a record never touches READ, SKIPPED or WRITTEN, and writes only a record whose upsert succeeds |
| `DiffJob.DiffRecordMissing` | src/main/java/com/datastax/cdm/job/DiffJobSession.java:211-228 | a record without a target row counts MISSING once, and is written and counted CORRECTED_MISSING iff missing rows are corrected for this table and the write succeeds |
| `DiffJob.DiffRecordSkipValueCheck` | src/main/java/com/datastax/cdm/job/DiffJobSession.java:229 | with the value check skipped a found record changes nothing |
| `DiffJob.DiffRecordCompared` | src/main/java/com/datastax/cdm/job/DiffJobSession.java:229-245 | equal values count VALID twice; different values count MISMATCH, are written and counted CORRECTED_MISMATCH iff correction is on and succeeds, and count VALID once unless that write throws |
| `DiffJob.ClassifyLast` | src/main/java/com/datastax/cdm/job/DiffJobSession.java:195-204 | the last record of a batch adds its own outcome: MISSING iff no target row, at most one of MISSING or MISMATCH, and one write per correction under the matching switch |
| `DiffJob.DiffAllBounds` | src/main/java/com/datastax/cdm/job/DiffJobSession.java:195-204 | a batch counts at most one MISSING or MISMATCH per record, one write per correction, and writes only its own records whose upsert succeeds |
| `DiffJob.DiffAllAppend` | src/main/java/com/datastax/cdm/job/DiffJobSession.java:195-204 | diffing two buffers in turn adds their counters and concatenates their writes |
| `DiffJob.NoWritesWithoutAutoCorrect` | src/main/java/com/datastax/cdm/job/DiffJobSession.java:214-240 | with both auto-correct switches off nothing is written or counted corrected |
| `DiffJob.MissingCountsRecordsWithoutTarget` | src/main/java/com/datastax/cdm/job/DiffJobSession.java:211-212 | MISSING over a batch is exactly the number of its records without a target row |
| `DiffJob.TargetIndex` | src/main/java/com/datastax/cdm/job/DiffJobSession.java:133-137 | the index holds exactly the keys of the target rows |
| `DiffJob.TargetIndexLastWins` | src/main/java/com/datastax/cdm/job/DiffJobSession.java:133-137 | a key maps to the last target row with that key |
| `DiffJob.Join` | src/main/java/com/datastax/cdm/job/DiffJobSession.java:162-172 | joining keeps key and origin row, and finds a target row iff the key is indexed, namely the indexed row |
| `DiffJob.Admitted` | src/main/java/com/datastax/cdm/job/DiffJobSession.java:149-177 | at most the expanded records are admitted, each joined with the target row of its key |
| `DiffJob.AdmittedOrSkipped` | src/main/java/com/datastax/cdm/job/DiffJobSession.java:149-158 | every expanded record is admitted or skipped by the guardrail |
| `DiffJob.CountRow` | src/main/java/com/datastax/cdm/job/DiffJobSession.java:144-158 | a scanned row counts READ once and SKIPPED once if filtered or once per guardrail rejection, and nothing else |
| `DiffJob.ScanCounters` | src/main/java/com/datastax/cdm/job/DiffJobSession.java:141-179 | scanning counts one READ per row, only SKIPPED besides, and no diff counter |
| `DiffJob.ScanAccountsForEveryRow` | src/main/java/com/datastax/cdm/job/DiffJobSession.java:141-179 | when each kept row yields one record and nothing throws, every row is either SKIPPED or buffered |
| `DiffJob.FirstFilterFailure` | src/main/java/com/datastax/cdm/job/DiffJobSession.java:146 | the scan stops at the first row whose filter throws, and no row before it throws |
| `DiffJob.FirstFilterFailureUnique` | src/main/java/com/datastax/cdm/job/DiffJobSession.java:141-179 | the stopping row is determined by which rows throw |
| `DiffJob.Pending` | src/main/java/com/datastax/cdm/job/DiffJobSession.java:163-176 | the buffer never holds more records than were added |
| `DiffJob.WaitingFoundRecordsWithinFetchSize` | src/main/java/com/datastax/cdm/job/DiffJobSession.java:169-175 | a buffered record with a target row never has more than the fetch size of records up to it in the buffer |
| `DiffJob.NoFlushWithoutFoundRecord` | src/main/java/com/datastax/cdm/job/DiffJobSession.java:163-168 | records missing on the target never trigger a flush |
| `DiffJob.PendingStep` | src/main/java/com/datastax/cdm/job/DiffJobSession.java:163-176 | adding a record either keeps everything buffered or flushes the whole buffer, exactly when the record was found and the buffer outgrew the fetch size |
| `DiffJob.BufferingStep` | src/main/java/com/datastax/cdm/job/DiffJobSession.java:165-175 | buffering a record keeps the split between diffed and waiting records |
| `DiffJob.BufferingFlushed` | src/main/java/com/datastax/cdm/job/DiffJobSession.java:163-176 | the records diffed while buffering are exactly those the flush rule picks |
| `DiffJob.AttemptCompletesIff` | src/main/java/com/datastax/cdm/job/DiffJobSession.java:121-181 | an attempt completes iff the fetch size is not negative, no read fails and no filter throws; then it diffs every buffered record and counts every origin row READ; it never counts more READs than rows and writes only records it diffed |
| `DiffJob.NegativeFetchSizeFailsRange` | src/main/java/com/datastax/cdm/job/DiffJobSession.java:119-187 | with a negative fetch size every allowed attempt is run, and the range is recorded failed iff at least one attempt is allowed |
| `DiffJob.AttemptWritesNothingWithoutAutoCorrect` | src/main/java/com/datastax/cdm/job/DiffJobSession.java:121-181 | without auto-correction an attempt writes nothing |
| `DiffJob.AttemptsRun` | src/main/java/com/datastax/cdm/job/DiffJobSession.java:118-120 | between one and `maxRetries + 1` attempts are run, none when that bound is not positive |
| `DiffJob.FirstCompletedStops` | src/main/java/com/datastax/cdm/job/DiffJobSession.java:120 | every attempt before the one the loop stops at fails, and it stops at a completed or the last allowed attempt |
| `DiffJob.AttemptsRunStops` | src/main/java/com/datastax/cdm/job/DiffJobSession.java:120-181 | every attempt before the last one run failed, and the last one run completed unless it was the last allowed |
| `DiffJob.FirstCompletedUnique` | src/main/java/com/datastax/cdm/job/DiffJobSession.java:120 | the number of attempts is determined by which attempts complete |
| `DiffJob.FailedIffEveryAttemptFails` | src/main/java/com/datastax/cdm/job/DiffJobSession.java:185-187 | a range is recorded failed iff every allowed attempt fails |
| `DiffJob.FailureLogOnlyFailures` | src/main/java/com/datastax/cdm/job/DiffJobSession.java:182-184 | the failure log names only this range and only failed attempts, at most one line per attempt |
| `DiffJob.AllAttemptsLogged` | src/main/java/com/datastax/cdm/job/DiffJobSession.java:182-184 | when no attempt completes every attempt is logged |
| `DiffJob.TotalReadBounded` | src/main/java/com/datastax/cdm/job/DiffJobSession.java:141-144 | READ over all attempts never exceeds the origin rows those attempts saw |
| `DiffJob.AttemptReadBounded` | src/main/java/com/datastax/cdm/job/DiffJobSession.java:141-144 | one attempt counts at most one READ per origin row |
| `DiffJob.AfterAttemptsParts` | src/main/java/com/datastax/cdm/job/DiffJobSession.java:118-192 | after n attempts the job counters are the sum of all attempts' counters, completed or not; writes and failure lines are concatenated; the range is recorded failed only by a failing last allowed attempt |
| `DiffJob.RetryFinished` | src/main/java/com/datastax/cdm/job/DiffJobSession.java:118-192 | when the retry loop exits, it has run exactly the attempts up to the first completed one (or all allowed ones); the job counters, writes and failure lines are those of these attempts, and the range is recorded as failed only if the last allowed attempt failed |
| `DiffJob.DiffJobSession.PutRecord` | src/main/java/com/datastax/cdm/job/DiffJobSession.java:223 | the upsert reports whether it succeeded and appends the record to the writes only then |
| `DiffJob.DiffJobSession.Diff` | src/main/java/com/datastax/cdm/job/DiffJobSession.java:206-246 | diffing a record adds exactly its classification to the thread counters and its correction to the writes |
| `DiffJob.DiffJobSession.DiffAndClear` | src/main/java/com/datastax/cdm/job/DiffJobSession.java:195-204 | diffing a buffer adds the buffer's counters and writes, each record's failure contained to it |
| `DiffJob.DiffJobSession.BuildTargetIndex` | src/main/java/com/datastax/cdm/job/DiffJobSession.java:133-137 | the loop builds the target index |
| `DiffJob.DiffJobSession.BufferRecord` | src/main/java/com/datastax/cdm/job/DiffJobSession.java:165-175 | buffering a record keeps the buffering invariant and the thread counters in step with the records diffed |
| `DiffJob.DiffJobSession.AdmitRecord` | src/main/java/com/datastax/cdm/job/DiffJobSession.java:151-176 | a guardrail reject is counted SKIPPED; any other record is joined and buffered |
| `DiffJob.DiffJobSession.AdmitAll` | src/main/java/com/datastax/cdm/job/DiffJobSession.java:149-177 | an origin row's expansion adds its admitted records and its guardrail skips |
| `DiffJob.DiffJobSession.AdmitNext` | src/main/java/com/datastax/cdm/job/DiffJobSession.java:149-177 | one more expanded record keeps the loop invariant |
| `DiffJob.DiffJobSession.ScanRow` | src/main/java/com/datastax/cdm/job/DiffJobSession.java:141-178 | one origin row counts READ, throws iff its filter throws, and otherwise counts and buffers its fate |
| `DiffJob.DiffJobSession.ScanOrigin` | src/main/java/com/datastax/cdm/job/DiffJobSession.java:141-179 | the scan stops exactly at the first throwing row or the read limit, having buffered and counted every row before it |
| `DiffJob.DiffJobSession.ProcessAttempt` | src/main/java/com/datastax/cdm/job/DiffJobSession.java:121-181 | one attempt's outcome, thread counters and writes are those of the attempt specification |
| `DiffJob.DiffJobSession.RunAttempt` | src/main/java/com/datastax/cdm/job/DiffJobSession.java:120-191 | one attempt, its failure log line, the failed-range record and the counter merge update the job state as specified |
| `DiffJob.DiffJobSession.GetDataAndDiff` | src/main/java/com/datastax/cdm/job/DiffJobSession.java:115-193 | a range is retried until an attempt completes, at most `maxRetries + 1` times; the job counters, writes, failure log and failed ranges are those of the attempts run |
| `CopyPKJob.ParseFieldsMeaning` | src/main/java/com/datastax/cdm/job/CopyPKJobSession.java:108-113 | parsing succeeds iff every field has a parser that accepts it, and then yields one value per field, each the parse of its field |
| `CopyPKJob.ParseFieldsOf` | src/main/java/com/datastax/cdm/job/CopyPKJobSession.java:108-113 | fields that each parse to the value at their position, with no more fields than parsers, parse together to exactly those values |
| `CopyPKJob.ParseFieldsStopsAtFailure` | src/main/java/com/datastax/cdm/job/CopyPKJobSession.java:109-112 | a failure at some field is the failure of the whole key |
| `CopyPKJob.TooManyFieldsFails` | src/main/java/com/datastax/cdm/job/CopyPKJobSession.java:109-110 | a key string with more fields than key columns is an error |
| `CopyPKJob.PercentFreeIsClear` | src/main/java/com/datastax/cdm/job/CopyPKJobSession.java:107 | a field without `%` starts no occurrence of `" %% "`, not even into the separator that follows it |
| `CopyPKJob.KeyFieldsJoinable` | src/main/java/com/datastax/cdm/job/CopyPKJobSession.java:107 | key fields without `%`, the last not empty, can be joined by `" %% "` and split back |
| `CopyPKJob.EnhancedPKOfJoin` | src/main/java/com/datastax/cdm/job/CopyPKJobSession.java:106-115 | a key written as fields without `%` (spaces allowed, the last not empty) joined by `" %% "` decodes to the key built from its parsed fields |
| `CopyPKJob.SpacedKeyRoundTrips` | src/main/java/com/datastax/cdm/job/CopyPKJobSession.java:106-115 | the key string `New York %% 42` decodes to the key of its two parsed fields |
| `CopyPKJob.StepKeyClassifies` | src/main/java/com/datastax/cdm/job/CopyPKJobSession.java:58-86 | a key counts READ once, then MISSING iff no usable key or origin row, ends the run if the select by key throws, SKIPPED iff filtered, WRITTEN iff upserted; it is written iff WRITTEN; an exception leaves it counted READ only unless it came after the write |
| `CopyPKJob.StepKeyReports` | src/main/java/com/datastax/cdm/job/CopyPKJobSession.java:84-86 | a key adds at most one progress report, non-final, of the current counters; it adds one iff the run goes on, the key is written and the new read count is a multiple of a non-zero interval |
| `CopyPKJob.DueKeyReported` | src/main/java/com/datastax/cdm/job/CopyPKJobSession.java:84-86 | a written key whose read count is a multiple of a non-zero interval appends a non-final report of the new counters |
| `CopyPKJob.RunKeysAborted` | src/main/java/com/datastax/cdm/job/CopyPKJobSession.java:56-88 | nothing happens once an exception ended the run |
| `CopyPKJob.RunKeysAbortedPrefix` | src/main/java/com/datastax/cdm/job/CopyPKJobSession.java:57-87 | keys after the one that ended the run change nothing |
| `CopyPKJob.RunBatchesAbortedPrefix` | src/main/java/com/datastax/cdm/job/CopyPKJobSession.java:56-88 | batches after the one that ended the run change nothing |
| `CopyPKJob.RunKeysAppend` | src/main/java/com/datastax/cdm/job/CopyPKJobSession.java:57 | handling two key lists in turn is handling their concatenation |
| `CopyPKJob.RunBatchesIsRunKeys` | src/main/java/com/datastax/cdm/job/CopyPKJobSession.java:56-57 | handling the batches in turn is handling all their keys in order |
| `CopyPKJob.RunKeysAccounting` | src/main/java/com/datastax/cdm/job/CopyPKJobSession.java:56-88 | READ grows by the number of keys on completion and never by more; on completion READ = MISSING + SKIPPED + WRITTEN holds in increments, with at most the throwing key unaccounted on abort; writes are appended one per WRITTEN; no counter decreases |
| `CopyPKJob.ProgressReportsAtInterval` | src/main/java/com/datastax/cdm/job/CopyPKJobSession.java:84-86 | every progress report during the run is non-final and made at a read count that is a multiple of the interval; every key for which a report is due has a report of the counters right after it among the run's reports |
| `CopyPKJob.FinishReports` | src/main/java/com/datastax/cdm/job/CopyPKJobSession.java:90 | a completed run ends with exactly one final report of the final counters; an aborted run makes none |
| `CopyPKJob.CopyPKJobSession.ToEnhancedPK` | src/main/java/com/datastax/cdm/job/CopyPKJobSession.java:106-115 | the parsing loop computes the key of the key string |
| `CopyPKJob.CopyPKJobSession.PutRecord` | src/main/java/com/datastax/cdm/job/CopyPKJobSession.java:81 | the upsert reports whether it succeeded and appends the record to the writes only then |
| `CopyPKJob.CopyPKJobSession.PrintCounts` | src/main/java/com/datastax/cdm/job/CopyPKJobSession.java:93-104 | a report appends the current counters, marked final or not |
| `CopyPKJob.CopyPKJobSession.ProcessKey` | src/main/java/com/datastax/cdm/job/CopyPKJobSession.java:58-86 | handling one key updates counters, writes and reports as the per-key step, and reports whether it threw |
| `CopyPKJob.CopyPKJobSession.ProcessKeyAt` | src/main/java/com/datastax/cdm/job/CopyPKJobSession.java:57 | one more key of a batch keeps the loop invariant |
| `CopyPKJob.CopyPKJobSession.ProcessBatch` | src/main/java/com/datastax/cdm/job/CopyPKJobSession.java:57-87 | handling a batch is handling its keys in order, stopping at the first that throws |
| `CopyPKJob.CopyPKJobSession.GetRowAndInsert` | src/main/java/com/datastax/cdm/job/CopyPKJobSession.java:54-91 | the run handles every batch in order and completes iff no key throws, ending then with the final report; the session state is that of the run |

## Left out

- Concurrency is not modelled. The copy job handles a batch's keys with a parallel stream, and `isDifferent` compares columns in parallel. Both are modelled as sequential, in list and column order. So the order of diff entries and of writes is one of the possible orders, and the model does not cover the counters' atomic updates.
- The thread-local counter holder is not modelled. The thread counters and the job counters are plain fields of the session.
- Logging is not modelled: the log lines, the thread-context labels, and the text of `printCounts`. A progress report is modelled as a snapshot of the counters.
- Appending a failed range to the partition file is modelled as appending the range to a list. The file I/O itself is left out.
- Rate limiters are not modelled. They only delay.
- The remote reads and writes are inputs rather than operations:
  - range selects;
  - the select by key;
  - the upsert.

  The rows a read returns are inputs. A failing origin read is the row count after which it throws.
- The key factory is a given function. This covers building target keys, expanding a record into its valid records, and building a key from parsed values. The guardrail check and the column type conversion are given functions too.
- `getFormattedContent` is left out. A value-mismatch entry carries the two values rather than their formatted text. An exception entry carries the column, the target index and the origin index, not the exception's name.
- Exception messages are not modelled. A `Failure` carries a fixed message.
- Counters are unbounded integers. A Java `long` counter cannot overflow within any feasible run.
- `DiffJob.AttemptsRun`: the attempt bound `maxRetries + 1` is an unbounded integer. In `DiffJobSession.java:119` it is a Java `int`, so `maxRetries = Integer.MAX_VALUE` wraps to a negative bound and runs no attempt, where the model runs `2^31` attempts.
- Case handling covers ASCII only. `toUpperCase` and `equalsIgnoreCase` are modelled on ASCII letters, and other characters are left unchanged.
- Values are abstract. A TTL or write-timestamp cell is read through a given function, which stands for the driver's `getInt`/`getLong`, and a null cell reads as that function says.
- A null TTL or WRITETIME column list is modelled as an empty list.
- `OriginSelect.OriginSelectStatement.constructor`: it sets up the result columns and types but does not build the statement itself. `BuildStatement` is a separate call, and the statement stays empty until then.
- The job sessions use the record filter of the `datastax.astra.migrate` `AbstractOriginSelectStatement`, applied to the origin rows of both jobs. The code imports the select statements from `com.datastax.cdm.cql.statement` (`DiffJobSession.java:18`, `CopyPKJobSession.java:8`), and those classes are not part of this model. Their filter is assumed to behave like the one modelled.
- Constructing the job sessions from configuration properties is left out, and so is the `processSlice` wrapper. The base statement class is not part of this model.
- `DiffJob.ScanAccountsForEveryRow` states the per-row accounting only when every kept row yields exactly one record and no guardrail rejects. In general a row contributes its records and its guardrail skips, as `DiffJob.CountRow` and `DiffJob.FateOf` state.
