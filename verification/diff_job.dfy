/** The diff engine: for one partition range, join the origin rows with the
    target rows by primary key, classify every record as missing, mismatched
    or valid, apply the auto-correct policy, and retry the whole range on
    failure. The remote reads and writes are given as inputs. */
module DiffJob {
  import opened Common
  import opened OriginSelect
  import opened ColumnDiff

  /** The auto-correct and comparison switches of a diff job. */
  datatype DiffPolicy = DiffPolicy(
    autoCorrectMissing: bool,
    autoCorrectMismatch: bool,
    isCounterTable: bool,
    forceCounterWhenMissing: bool,
    skipValueCheck: bool)

  datatype DiffConfig = DiffConfig(
    policy: DiffPolicy,
    columns: ColumnConfig,
    filter: FilterConfig,
    guardrailEnabled: bool,
    fetchSizeInRows: int,
    maxRetries: int)

  /** The collaborators of the engine, as given functions: the key factory,
      the fan-out of one origin record into the records to compare, the
      guardrail check (true: clean) and whether an upsert of a record to the
      target succeeds (false: the write throws). */
  datatype DiffServices = DiffServices(
    columns: ColumnServices,
    getTargetPK: Row -> PrimaryKey,
    toValidRecordList: Record -> seq<Record>,
    guardrailClean: Record -> bool,
    upsertSucceeds: Record -> bool)

  /** A partition range [min, max). */
  datatype PartitionRange = PartitionRange(min: int, max: int)

  // ---------------------------------------------------------------------
  // Classification of one record

  /** What diffing one record does: the counter increments and whether it
      wrote the record to the target. */
  datatype DiffOutcome = DiffOutcome(delta: Counters, upserted: bool)

  /** Auto-correcting a missing row is allowed by the policy. */
  predicate CorrectsMissing(p: DiffPolicy)
  {
    p.autoCorrectMissing && !(p.isCounterTable && !p.forceCounterWhenMissing)
  }

  /** Diffs one record. A write that throws ends the diff of that record with
      the increments made so far. */
  function DiffRecord(cfg: DiffConfig, svc: DiffServices, record: Record): (r: DiffOutcome)
    ensures r.delta.read == 0 && r.delta.skipped == 0 && r.delta.written == 0
    ensures r.upserted ==> svc.upsertSucceeds(record)
  {
    var p := cfg.policy;
    match record.targetRow
    case None =>
      var c := One(Missing);
      if p.autoCorrectMissing && p.isCounterTable && !p.forceCounterWhenMissing then DiffOutcome(c, false)
      else if p.autoCorrectMissing && svc.upsertSucceeds(record) then DiffOutcome(c.Inc(CorrectedMissing), true)
      else DiffOutcome(c, false)
    case Some(targetRow) =>
      if p.skipValueCheck then DiffOutcome(Zero, false)
      else
        var text := IsDifferent(cfg.columns, svc.columns, record.pk, record.originRow, targetRow);
        if text != [] then
          var c := One(Mismatch);
          if !p.autoCorrectMismatch then DiffOutcome(c.Inc(Valid), false)
          else if svc.upsertSucceeds(record) then DiffOutcome(c.Inc(CorrectedMismatch).Inc(Valid), true)
          else DiffOutcome(c, false)
        else DiffOutcome(One(Valid).Inc(Valid), false)
  }

  /** A record missing on the target counts MISSING once; it is written,
      and counted CORRECTED_MISSING, exactly when auto-correction of missing
      rows applies to the table and the write succeeds. */
  lemma DiffRecordMissing(cfg: DiffConfig, svc: DiffServices, record: Record)
    requires record.targetRow.None?
    ensures var r := DiffRecord(cfg, svc, record);
      && r.delta.missing == 1 && r.delta.valid == 0 && r.delta.mismatch == 0 && r.delta.correctedMismatch == 0
      && (r.upserted <==> CorrectsMissing(cfg.policy) && svc.upsertSucceeds(record))
      && r.delta.correctedMissing == (if r.upserted then 1 else 0)
  {
  }

  /** A found record is not counted at all when the value check is skipped. */
  lemma DiffRecordSkipValueCheck(cfg: DiffConfig, svc: DiffServices, record: Record)
    requires record.targetRow.Some? && cfg.policy.skipValueCheck
    ensures DiffRecord(cfg, svc, record) == DiffOutcome(Zero, false)
  {
  }

  /** A found record whose values agree counts VALID twice; one whose values
      differ counts MISMATCH, is written when auto-correction of mismatches is
      on, and counts VALID once unless that write throws. */
  lemma DiffRecordCompared(cfg: DiffConfig, svc: DiffServices, record: Record)
    requires record.targetRow.Some? && !cfg.policy.skipValueCheck
    ensures var r := DiffRecord(cfg, svc, record);
      var text := IsDifferent(cfg.columns, svc.columns, record.pk, record.originRow, record.targetRow.value);
      && r.delta.missing == 0 && r.delta.correctedMissing == 0
      && (text == [] ==> r == DiffOutcome(Zero.(valid := 2), false))
      && (text != [] ==>
            && r.delta.mismatch == 1
            && (r.upserted <==> cfg.policy.autoCorrectMismatch && svc.upsertSucceeds(record))
            && r.delta.correctedMismatch == (if r.upserted then 1 else 0)
            && r.delta.valid == (if cfg.policy.autoCorrectMismatch && !svc.upsertSucceeds(record) then 0 else 1))
  {
  }

  /** What diffing a batch of records does, each record's failure contained. */
  datatype BatchOutcome = BatchOutcome(delta: Counters, upserts: seq<Record>)

  /** The classification of the last record of a batch, in whichever case applies. */
  lemma ClassifyLast(cfg: DiffConfig, svc: DiffServices, records: seq<Record>)
    requires records != []
    ensures var last := records[|records| - 1];
      var o := DiffRecord(cfg, svc, last);
      var prefix := DiffAll(cfg, svc, records[..|records| - 1]);
      && DiffAll(cfg, svc, records)
         == BatchOutcome(prefix.delta.Add(o.delta), if o.upserted then prefix.upserts + [last] else prefix.upserts)
      && o.delta.read == 0 && o.delta.skipped == 0 && o.delta.written == 0
      && (o.upserted ==> svc.upsertSucceeds(last))
      && o.delta.missing == (if last.targetRow.None? then 1 else 0)
      && 0 <= o.delta.mismatch <= 1 && o.delta.missing + o.delta.mismatch <= 1
      && 0 <= o.delta.correctedMissing && 0 <= o.delta.correctedMismatch
      && (if o.upserted then 1 else 0) == o.delta.correctedMissing + o.delta.correctedMismatch
      && (o.delta.correctedMissing > 0 ==> cfg.policy.autoCorrectMissing)
      && (o.delta.correctedMismatch > 0 ==> cfg.policy.autoCorrectMismatch)
  {
    var last := records[|records| - 1];
    if last.targetRow.None? {
      DiffRecordMissing(cfg, svc, last);
    } else if cfg.policy.skipValueCheck {
      DiffRecordSkipValueCheck(cfg, svc, last);
    } else {
      DiffRecordCompared(cfg, svc, last);
    }
  }

  /** Diffs `records` in order. */
  function DiffAll(cfg: DiffConfig, svc: DiffServices, records: seq<Record>): BatchOutcome
  {
    if records == [] then BatchOutcome(Zero, [])
    else
      var prefix := DiffAll(cfg, svc, records[..|records| - 1]);
      var last := records[|records| - 1];
      var o := DiffRecord(cfg, svc, last);
      BatchOutcome(prefix.delta.Add(o.delta), if o.upserted then prefix.upserts + [last] else prefix.upserts)
  }

  /** Diffing a batch only counts MISSING, MISMATCH, VALID and their
      corrections, at most one MISSING or MISMATCH per record; it writes only
      records of the batch whose write succeeds, one per correction. */
  lemma {:induction false} DiffAllBounds(cfg: DiffConfig, svc: DiffServices, records: seq<Record>)
    ensures var r := DiffAll(cfg, svc, records);
      && r.delta.read == 0 && r.delta.skipped == 0 && r.delta.written == 0
      && 0 <= r.delta.missing && 0 <= r.delta.mismatch && r.delta.missing + r.delta.mismatch <= |records|
      && 0 <= r.delta.correctedMissing && 0 <= r.delta.correctedMismatch
      && |r.upserts| == r.delta.correctedMissing + r.delta.correctedMismatch
      && forall u :: u in r.upserts ==> u in records && svc.upsertSucceeds(u)
  {
    if records != [] {
      var init := records[..|records| - 1];
      DiffAllBounds(cfg, svc, init);
      ClassifyLast(cfg, svc, records);
      assert forall u :: u in init ==> u in records;
    }
  }

  /** Diffing two batches one after the other is diffing their concatenation. */
  lemma {:induction false} DiffAllAppend(cfg: DiffConfig, svc: DiffServices, a: seq<Record>, b: seq<Record>)
    ensures DiffAll(cfg, svc, a + b).delta == DiffAll(cfg, svc, a).delta.Add(DiffAll(cfg, svc, b).delta)
    ensures DiffAll(cfg, svc, a + b).upserts == DiffAll(cfg, svc, a).upserts + DiffAll(cfg, svc, b).upserts
    decreases |b|
  {
    if b == [] {
      assert a + b == a;
      AddZero(DiffAll(cfg, svc, a).delta);
    } else {
      var b' := b[..|b| - 1];
      DiffAllAppend(cfg, svc, a, b');
      DropLastOfAppend(a, b);
      AddAssoc(DiffAll(cfg, svc, a).delta, DiffAll(cfg, svc, b').delta, DiffRecord(cfg, svc, b[|b| - 1]).delta);
    }
  }

  /** With both auto-correct switches off, diffing never writes to the target. */
  lemma {:induction false} NoWritesWithoutAutoCorrect(cfg: DiffConfig, svc: DiffServices, records: seq<Record>)
    requires !cfg.policy.autoCorrectMissing && !cfg.policy.autoCorrectMismatch
    ensures DiffAll(cfg, svc, records).upserts == []
    ensures DiffAll(cfg, svc, records).delta.correctedMissing == 0
    ensures DiffAll(cfg, svc, records).delta.correctedMismatch == 0
  {
    if records != [] {
      var init := records[..|records| - 1];
      NoWritesWithoutAutoCorrect(cfg, svc, init);
      ClassifyLast(cfg, svc, records);
    }
  }

  /** Every record without a target row counts as missing, and nothing else does. */
  function CountMissing(records: seq<Record>): nat
  {
    if records == [] then 0
    else CountMissing(records[..|records| - 1]) + (if records[|records| - 1].targetRow.None? then 1 else 0)
  }

  lemma {:induction false} MissingCountsRecordsWithoutTarget(cfg: DiffConfig, svc: DiffServices, records: seq<Record>)
    ensures DiffAll(cfg, svc, records).delta.missing == CountMissing(records)
  {
    if records != [] {
      MissingCountsRecordsWithoutTarget(cfg, svc, records[..|records| - 1]);
      ClassifyLast(cfg, svc, records);
    }
  }

  // ---------------------------------------------------------------------
  // The in-memory join

  /** The target rows of a range keyed by their primary key; a later row with
      an equal key replaces an earlier one. */
  function TargetIndex(getTargetPK: Row -> PrimaryKey, rows: seq<Row>): (m: map<seq<Value>, Row>)
    ensures forall k :: k in m <==> exists j :: 0 <= j < |rows| && KeyOf(getTargetPK(rows[j])) == k
  {
    if rows == [] then map[]
    else
      var last := rows[|rows| - 1];
      var m := TargetIndex(getTargetPK, rows[..|rows| - 1]);
      assert forall j :: 0 <= j < |rows| - 1 ==> rows[..|rows| - 1][j] == rows[j];
      m[KeyOf(getTargetPK(last)) := last]
  }

  /** The row a key maps to is the last target row with that key. */
  lemma {:induction false} TargetIndexLastWins(getTargetPK: Row -> PrimaryKey, rows: seq<Row>, j: nat)
    requires j < |rows|
    requires forall l :: j < l < |rows| ==> KeyOf(getTargetPK(rows[l])) != KeyOf(getTargetPK(rows[j]))
    ensures TargetIndex(getTargetPK, rows)[KeyOf(getTargetPK(rows[j]))] == rows[j]
  {
    if j < |rows| - 1 {
      var init := rows[..|rows| - 1];
      forall l | j < l < |init|
        ensures KeyOf(getTargetPK(init[l])) != KeyOf(getTargetPK(init[j]))
      {
        assert init[l] == rows[l];
      }
      TargetIndexLastWins(getTargetPK, init, j);
    }
  }

  /** The record with its target row joined: the indexed row of its key, or
      none when the key is not in the index. */
  function Join(tmap: map<seq<Value>, Row>, r: Record): (j: Record)
    ensures j.pk == r.pk && j.originRow == r.originRow
    ensures KeyOf(r.pk) in tmap <==> j.targetRow.Some?
    ensures j.targetRow.Some? ==> j.targetRow.value == tmap[KeyOf(r.pk)]
  {
    r.(targetRow := if KeyOf(r.pk) in tmap then Some(tmap[KeyOf(r.pk)]) else None)
  }

  // ---------------------------------------------------------------------
  // Scanning the origin rows

  predicate PassesGuardrail(cfg: DiffConfig, svc: DiffServices, r: Record)
  {
    !cfg.guardrailEnabled || svc.guardrailClean(r)
  }

  /** The expanded records of one origin row that pass the guardrail, joined
      with the target index, in order. */
  function Admitted(cfg: DiffConfig, svc: DiffServices, tmap: map<seq<Value>, Row>, expanded: seq<Record>): (rs: seq<Record>)
    ensures |rs| <= |expanded|
    ensures forall x :: x in rs ==>
      x.targetRow == (if KeyOf(x.pk) in tmap then Some(tmap[KeyOf(x.pk)]) else None)
  {
    if expanded == [] then []
    else
      var last := expanded[|expanded| - 1];
      var prefix := Admitted(cfg, svc, tmap, expanded[..|expanded| - 1]);
      if PassesGuardrail(cfg, svc, last) then prefix + [Join(tmap, last)] else prefix
  }

  /** How many expanded records fail the guardrail. */
  function GuardrailSkips(cfg: DiffConfig, svc: DiffServices, expanded: seq<Record>): (n: nat)
  {
    if expanded == [] then 0
    else GuardrailSkips(cfg, svc, expanded[..|expanded| - 1])
         + (if PassesGuardrail(cfg, svc, expanded[|expanded| - 1]) then 0 else 1)
  }

  /** Every expanded record is either admitted or skipped by the guardrail. */
  lemma {:induction false} AdmittedOrSkipped(cfg: DiffConfig, svc: DiffServices, tmap: map<seq<Value>, Row>, expanded: seq<Record>)
    ensures |Admitted(cfg, svc, tmap, expanded)| + GuardrailSkips(cfg, svc, expanded) == |expanded|
  {
    if expanded != [] {
      AdmittedOrSkipped(cfg, svc, tmap, expanded[..|expanded| - 1]);
    }
  }

  /** The record the engine builds for an origin row before filtering. */
  function OriginRecord(svc: DiffServices, row: Row): Record
  {
    Record(svc.getTargetPK(row), row, None)
  }

  /** What becomes of one origin row. */
  datatype RowFate = Filtered | FilterThrows | Passed(records: seq<Record>, guardrailSkips: nat)

  function FateOf(cfg: DiffConfig, svc: DiffServices, tmap: map<seq<Value>, Row>, row: Row): RowFate
  {
    var record := OriginRecord(svc, row);
    match ShouldFilterRecord(cfg.filter, Some(record))
    case Failure(_) => FilterThrows
    case Success(filtered) =>
      if filtered then Filtered
      else
        var expanded := svc.toValidRecordList(record);
        Passed(Admitted(cfg, svc, tmap, expanded), GuardrailSkips(cfg, svc, expanded))
  }

  /** The records `rows` put in the buffer, in order. */
  function Buffered(cfg: DiffConfig, svc: DiffServices, tmap: map<seq<Value>, Row>, rows: seq<Row>): seq<Record>
  {
    if rows == [] then []
    else
      var f := FateOf(cfg, svc, tmap, rows[|rows| - 1]);
      var prefix := Buffered(cfg, svc, tmap, rows[..|rows| - 1]);
      if f.Passed? then prefix + f.records else prefix
  }

  /** The counters one origin row increments: one READ, and one SKIPPED when
      it is filtered out or for each of its records the guardrail rejects. */
  function CountRow(c: Counters, f: RowFate): (r: Counters)
    ensures r.read == c.read + 1
    ensures r.skipped >= c.skipped
    ensures r.valid == c.valid && r.mismatch == c.mismatch && r.missing == c.missing && r.written == c.written
    ensures r.correctedMissing == c.correctedMissing && r.correctedMismatch == c.correctedMismatch
    ensures f.Filtered? ==> r.skipped == c.skipped + 1
    ensures f.Passed? ==> r.skipped == c.skipped + f.guardrailSkips
  {
    var c := c.Inc(Read);
    match f
    case Filtered => c.Inc(Skipped)
    case FilterThrows => c
    case Passed(_, skips) => c.(skipped := c.skipped + skips)
  }

  /** The counters `from` after scanning `rows`, before any diff: one READ
      per row, and the SKIPPEDs; no other counter moves. */
  function ScanCounters(cfg: DiffConfig, svc: DiffServices, tmap: map<seq<Value>, Row>, from: Counters, rows: seq<Row>)
    : (c: Counters)
    ensures c.read == from.read + |rows| && c.skipped >= from.skipped
    ensures c.valid == from.valid && c.mismatch == from.mismatch && c.missing == from.missing
    ensures c.written == from.written
    ensures c.correctedMissing == from.correctedMissing && c.correctedMismatch == from.correctedMismatch
  {
    if rows == [] then from
    else CountRow(ScanCounters(cfg, svc, tmap, from, rows[..|rows| - 1]), FateOf(cfg, svc, tmap, rows[|rows| - 1]))
  }

  /** No row of `rows` makes the filter throw. */
  predicate NoFilterThrows(cfg: DiffConfig, svc: DiffServices, tmap: map<seq<Value>, Row>, rows: seq<Row>)
  {
    forall j :: 0 <= j < |rows| ==> !FateOf(cfg, svc, tmap, rows[j]).FilterThrows?
  }

  /** Every origin row that is neither filtered nor throwing is buffered or
      skipped record by record: it is counted SKIPPED exactly once, or
      contributes its records, and READ counts every row. */
  lemma {:induction false} ScanAccountsForEveryRow(cfg: DiffConfig, svc: DiffServices, tmap: map<seq<Value>, Row>,
                                                   from: Counters, rows: seq<Row>)
    requires forall j :: 0 <= j < |rows| ==> FateOf(cfg, svc, tmap, rows[j]).Passed? ==>
      FateOf(cfg, svc, tmap, rows[j]).guardrailSkips == 0 && |FateOf(cfg, svc, tmap, rows[j]).records| == 1
    requires NoFilterThrows(cfg, svc, tmap, rows)
    ensures ScanCounters(cfg, svc, tmap, from, rows).skipped - from.skipped + |Buffered(cfg, svc, tmap, rows)| == |rows|
  {
    if rows != [] {
      var init := rows[..|rows| - 1];
      assert forall j :: 0 <= j < |init| ==> init[j] == rows[j];
      ScanAccountsForEveryRow(cfg, svc, tmap, from, init);
    }
  }

  /** The index of the first of the first `limit` rows whose filter throws,
      or `limit` when none does. */
  function FirstFilterFailure(cfg: DiffConfig, svc: DiffServices, tmap: map<seq<Value>, Row>, rows: seq<Row>, limit: nat): (k: nat)
    requires limit <= |rows|
    ensures k <= limit
    ensures NoFilterThrows(cfg, svc, tmap, rows[..k])
    ensures k < limit ==> FateOf(cfg, svc, tmap, rows[k]).FilterThrows?
  {
    if limit == 0 then 0
    else
      var k := FirstFilterFailure(cfg, svc, tmap, rows, limit - 1);
      if k < limit - 1 then k
      else
        assert rows[..limit] == rows[..limit - 1] + [rows[limit - 1]];
        if FateOf(cfg, svc, tmap, rows[limit - 1]).FilterThrows? then limit - 1 else limit
  }

  // ---------------------------------------------------------------------
  // The buffer

  /** How many of `records`, buffered one by one, are still waiting to be
      diffed: the buffer is flushed right after a record with a target row is
      added and makes it hold more than `fetchSize` records. */
  function Pending(fetchSize: int, records: seq<Record>): (p: nat)
    ensures p <= |records|
  {
    if records == [] then 0
    else
      var q := Pending(fetchSize, records[..|records| - 1]) + 1;
      if records[|records| - 1].targetRow.Some? && q > fetchSize then 0 else q
  }

  /** The records already passed to diff. */
  function Flushed(fetchSize: int, records: seq<Record>): seq<Record>
  {
    records[..|records| - Pending(fetchSize, records)]
  }

  /** The records still in the buffer. */
  function Waiting(fetchSize: int, records: seq<Record>): seq<Record>
  {
    records[|records| - Pending(fetchSize, records)..]
  }

  /** Buffering stops short of a flush only with records whose target row is
      missing: a waiting record that has a target row never has more than
      `fetchSize` records up to and including it in the buffer. */
  lemma {:induction false} WaitingFoundRecordsWithinFetchSize(fetchSize: int, records: seq<Record>, j: nat)
    requires j < Pending(fetchSize, records)
    requires Waiting(fetchSize, records)[j].targetRow.Some?
    ensures j + 1 <= fetchSize
  {
    var n := |records|;
    var p := Pending(fetchSize, records);
    var init := records[..n - 1];
    if j < p - 1 {
      assert p == Pending(fetchSize, init) + 1;
      assert Waiting(fetchSize, records)[j] == Waiting(fetchSize, init)[j];
      WaitingFoundRecordsWithinFetchSize(fetchSize, init, j);
    } else {
      assert Waiting(fetchSize, records)[j] == records[n - 1];
    }
  }

  /** Without a record that has a target row, nothing is diffed before the
      end of the range. */
  lemma {:induction false} NoFlushWithoutFoundRecord(fetchSize: int, records: seq<Record>)
    requires forall x :: x in records ==> x.targetRow.None?
    ensures Pending(fetchSize, records) == |records|
    ensures Flushed(fetchSize, records) == []
  {
    if records != [] {
      NoFlushWithoutFoundRecord(fetchSize, records[..|records| - 1]);
    }
  }

  /** Adding one record either leaves everything in the buffer or flushes it all. */
  lemma PendingStep(fetchSize: int, records: seq<Record>, r: Record)
    ensures var s := records + [r];
      if r.targetRow.Some? && Pending(fetchSize, records) + 1 > fetchSize then
        Flushed(fetchSize, s) == s && Waiting(fetchSize, s) == []
      else
        Flushed(fetchSize, s) == Flushed(fetchSize, records)
        && Waiting(fetchSize, s) == Waiting(fetchSize, records) + [r]
  {
    var s := records + [r];
    assert s[..|s| - 1] == records;
  }

  // ---------------------------------------------------------------------
  // One attempt at a range

  /** What one attempt at a range sees: the target rows, the origin rows and,
      when the attempt fails, after how many origin rows the origin read
      throws (at or past the last row: after the scan, before the final
      diff). */
  datatype Attempt = Attempt(targetRows: seq<Row>, originRows: seq<Row>, failsAfter: Option<nat>)

  /** What one attempt does: its counters, its writes, whether it completed,
      and the records it diffed. */
  datatype AttemptOutcome = AttemptOutcome(counters: Counters, upserts: seq<Record>, ok: bool, diffed: seq<Record>)

  /** The number of origin rows an attempt iterates before a read failure. */
  function ReadLimit(a: Attempt): (n: nat)
    ensures n <= |a.originRows|
  {
    if a.failsAfter.Some? && a.failsAfter.value < |a.originRows| then a.failsAfter.value else |a.originRows|
  }

  /** What one attempt does: index the target rows, scan the origin rows up
      to a read failure or a row whose filter throws, diff each buffer that
      outgrows the fetch size and, when the scan completed, the rest. A
      negative fetch size makes allocating the buffer throw before the scan,
      so the attempt fails having counted and written nothing. */
  function AttemptEffect(cfg: DiffConfig, svc: DiffServices, a: Attempt): AttemptOutcome
  {
    if cfg.fetchSizeInRows < 0 then AttemptOutcome(Zero, [], false, [])
    else
      var tmap := TargetIndex(svc.getTargetPK, a.targetRows);
      var limit := ReadLimit(a);
      var stop := FirstFilterFailure(cfg, svc, tmap, a.originRows, limit);
      var records := Buffered(cfg, svc, tmap, a.originRows[..stop]);
      var ok := stop == limit && a.failsAfter.None?;
      var diffed := if ok then records else Flushed(cfg.fetchSizeInRows, records);
      var batch := DiffAll(cfg, svc, diffed);
      var scanned := ScanCounters(cfg, svc, tmap, Zero, a.originRows[..stop]);
      // the row whose filter throws was counted READ
      var scan := if stop < limit then scanned.Inc(Read) else scanned;
      AttemptOutcome(scan.Add(batch.delta), batch.upserts, ok, diffed)
  }

  /** An attempt completes iff the fetch size is not negative, no read
      fails and no filter throws; a completed attempt diffs every buffered
      record and counts every origin row READ; an attempt never counts more
      READs than there are origin rows, and writes only records it diffed. */
  lemma AttemptCompletesIff(cfg: DiffConfig, svc: DiffServices, a: Attempt)
    ensures var r := AttemptEffect(cfg, svc, a);
      var tmap := TargetIndex(svc.getTargetPK, a.targetRows);
      && (r.ok <==> cfg.fetchSizeInRows >= 0 && a.failsAfter.None? && NoFilterThrows(cfg, svc, tmap, a.originRows))
      && (r.ok ==> r.diffed == Buffered(cfg, svc, tmap, a.originRows))
      && (r.ok ==> r.counters.read == |a.originRows|)
      && r.counters.read <= |a.originRows|
      && forall u :: u in r.upserts ==> u in r.diffed
  {
    var tmap := TargetIndex(svc.getTargetPK, a.targetRows);
    var rows := a.originRows;
    var limit := ReadLimit(a);
    var stop := FirstFilterFailure(cfg, svc, tmap, rows, limit);
    var r := AttemptEffect(cfg, svc, a);
    DiffAllBounds(cfg, svc, r.diffed);
    if cfg.fetchSizeInRows < 0 {
    } else if stop == limit && a.failsAfter.None? {
      assert rows[..stop] == rows;
    } else if a.failsAfter.None? {
      assert !FateOf(cfg, svc, tmap, rows[stop]).FilterThrows? ==> !(stop < limit);
    }
  }

  /** With a negative fetch size every attempt fails, so every allowed
      attempt runs and the range is recorded as failed. */
  lemma NegativeFetchSizeFailsRange(cfg: DiffConfig, svc: DiffServices, attempts: nat -> Attempt)
    requires cfg.fetchSizeInRows < 0
    ensures var effect := Effects(cfg, svc, attempts);
      var n := AttemptsRun(effect, cfg.maxRetries + 1);
      && n == (if cfg.maxRetries >= 0 then cfg.maxRetries + 1 else 0)
      && ((n >= 1 && n == cfg.maxRetries + 1 && !effect(n).ok) <==> cfg.maxRetries >= 0)
  {
    var effect := Effects(cfg, svc, attempts);
    forall k: nat
      ensures !effect(k).ok
    {
      assert effect(k) == AttemptEffect(cfg, svc, attempts(k));
    }
    AttemptsRunStops(effect, cfg.maxRetries + 1);
    FailedIffEveryAttemptFails(effect, cfg.maxRetries + 1);
  }

  /** With both auto-correct switches off, no attempt writes to the target. */
  lemma AttemptWritesNothingWithoutAutoCorrect(cfg: DiffConfig, svc: DiffServices, a: Attempt)
    requires !cfg.policy.autoCorrectMissing && !cfg.policy.autoCorrectMismatch
    ensures AttemptEffect(cfg, svc, a).upserts == []
    ensures AttemptEffect(cfg, svc, a).counters.correctedMissing == 0
    ensures AttemptEffect(cfg, svc, a).counters.correctedMismatch == 0
  {
    NoWritesWithoutAutoCorrect(cfg, svc, AttemptEffect(cfg, svc, a).diffed);
  }

  // ---------------------------------------------------------------------
  // The retry loop

  /** What each attempt at a range does, attempts numbered from 1. */
  function Effects(cfg: DiffConfig, svc: DiffServices, attempts: nat -> Attempt): nat -> AttemptOutcome
  {
    (k: nat) => AttemptEffect(cfg, svc, attempts(k))
  }

  /** The number of attempts run at a range when attempt k does `effect(k)`:
      attempts 1, 2, ... up to the first that completes, at most `maxAttempts`. */
  function AttemptsRun(effect: nat -> AttemptOutcome, maxAttempts: int): (n: nat)
    ensures maxAttempts <= 0 ==> n == 0
    ensures maxAttempts >= 1 ==> 1 <= n <= maxAttempts
  {
    if maxAttempts <= 0 then 0 else FirstCompleted(effect, maxAttempts, 1)
  }

  function FirstCompleted(effect: nat -> AttemptOutcome, maxAttempts: int, from: nat): (n: nat)
    requires 1 <= from <= maxAttempts
    decreases maxAttempts - from
    ensures from <= n <= maxAttempts
  {
    if effect(from).ok || from == maxAttempts then from else FirstCompleted(effect, maxAttempts, from + 1)
  }

  /** The attempts before the first completed one all fail, and the search
      stops at a completed attempt or at the last allowed one. */
  lemma {:induction false} FirstCompletedStops(effect: nat -> AttemptOutcome, maxAttempts: int, from: nat)
    requires 1 <= from <= maxAttempts
    decreases maxAttempts - from
    ensures var n := FirstCompleted(effect, maxAttempts, from);
      (forall k :: from <= k < n ==> !effect(k).ok) && (effect(n).ok || n == maxAttempts)
  {
    if !(effect(from).ok || from == maxAttempts) {
      FirstCompletedStops(effect, maxAttempts, from + 1);
    }
  }

  /** Every attempt before the last one run failed, and the last one run
      completed unless it was the last allowed one. */
  lemma AttemptsRunStops(effect: nat -> AttemptOutcome, maxAttempts: int)
    ensures var n := AttemptsRun(effect, maxAttempts);
      (forall k :: 1 <= k < n ==> !effect(k).ok) && (n >= 1 ==> effect(n).ok || n == maxAttempts)
  {
    if maxAttempts >= 1 {
      FirstCompletedStops(effect, maxAttempts, 1);
    }
  }

  /** The number of attempts is determined by which attempts complete. */
  lemma {:induction false} FirstCompletedUnique(effect: nat -> AttemptOutcome, maxAttempts: int, from: nat, n: nat)
    requires 1 <= from <= n <= maxAttempts
    requires forall k :: from <= k < n ==> !effect(k).ok
    requires effect(n).ok || n == maxAttempts
    ensures FirstCompleted(effect, maxAttempts, from) == n
    decreases n - from
  {
    if from < n {
      FirstCompletedUnique(effect, maxAttempts, from + 1, n);
    }
  }

  /** A range is recorded as failed exactly when every one of its attempts
      fails: the last attempt run is the last allowed one and it fails. */
  lemma FailedIffEveryAttemptFails(effect: nat -> AttemptOutcome, maxAttempts: int)
    ensures var n := AttemptsRun(effect, maxAttempts);
      (n >= 1 && n == maxAttempts && !effect(n).ok) <==>
      (maxAttempts >= 1 && forall k :: 1 <= k <= maxAttempts ==> !effect(k).ok)
  {
    AttemptsRunStops(effect, maxAttempts);
  }

  /** The counters of attempts 1..n added, in order, to `from`. */
  function TotalCounters(effect: nat -> AttemptOutcome, from: Counters, n: nat): Counters
  {
    if n == 0 then from else TotalCounters(effect, from, n - 1).Add(effect(n).counters)
  }

  /** The writes of attempts 1..n in order. */
  function TotalUpserts(effect: nat -> AttemptOutcome, n: nat): seq<Record>
  {
    if n == 0 then [] else TotalUpserts(effect, n - 1) + effect(n).upserts
  }

  /** The attempt-failure log lines of attempts 1..n: the range and the
      attempt number of each failed attempt. */
  function FailureLog(effect: nat -> AttemptOutcome, range: PartitionRange, n: nat): seq<(PartitionRange, nat)>
  {
    if n == 0 then []
    else if effect(n).ok then FailureLog(effect, range, n - 1)
    else FailureLog(effect, range, n - 1) + [(range, n)]
  }

  /** The log names only this range and only attempts that failed. */
  lemma {:induction false} FailureLogOnlyFailures(effect: nat -> AttemptOutcome, range: PartitionRange, n: nat)
    ensures |FailureLog(effect, range, n)| <= n
    ensures forall e :: e in FailureLog(effect, range, n) ==> e.0 == range && 1 <= e.1 <= n && !effect(e.1).ok
  {
    if n > 0 {
      FailureLogOnlyFailures(effect, range, n - 1);
    }
  }

  /** When no attempt completes, every attempt is logged as failed. */
  lemma {:induction false} AllAttemptsLogged(effect: nat -> AttemptOutcome, range: PartitionRange, n: nat)
    requires forall k :: 1 <= k <= n ==> !effect(k).ok
    ensures |FailureLog(effect, range, n)| == n
  {
    if n > 0 {
      AllAttemptsLogged(effect, range, n - 1);
    }
  }

  /** When every attempt reads at most its origin rows, READ over attempts
      1..n is at most their origin rows. */
  lemma {:induction false} TotalReadWithin(effect: nat -> AttemptOutcome, attempts: nat -> Attempt, from: Counters, n: nat)
    requires forall k :: 1 <= k <= n ==> effect(k).counters.read <= |attempts(k).originRows|
    ensures TotalCounters(effect, from, n).read <= from.read + TotalOriginRows(attempts, n)
  {
    if n > 0 {
      TotalReadWithin(effect, attempts, from, n - 1);
    }
  }

  /** Reading stops at every attempt, so READ over all attempts run is at
      most the origin rows of those attempts. */
  lemma TotalReadBounded(cfg: DiffConfig, svc: DiffServices, attempts: nat -> Attempt, from: Counters, n: nat)
    ensures TotalCounters(Effects(cfg, svc, attempts), from, n).read <= from.read + TotalOriginRows(attempts, n)
  {
    var effect := Effects(cfg, svc, attempts);
    forall k | 1 <= k <= n
      ensures effect(k).counters.read <= |attempts(k).originRows|
    {
      AttemptReadBounded(cfg, svc, attempts(k));
    }
    TotalReadWithin(effect, attempts, from, n);
  }

  /** One attempt reads at most its origin rows. */
  lemma AttemptReadBounded(cfg: DiffConfig, svc: DiffServices, a: Attempt)
    ensures AttemptEffect(cfg, svc, a).counters.read <= |a.originRows|
  {
    AttemptCompletesIff(cfg, svc, a);
  }

  function TotalOriginRows(attempts: nat -> Attempt, n: nat): nat
  {
    if n == 0 then 0 else TotalOriginRows(attempts, n - 1) + |attempts(n).originRows|
  }

  /** The job-wide state the retry loop updates: the job counters, the
      writes to the target, the attempt-failure log and the failed ranges. */
  datatype JobLog = JobLog(global: Counters, upserts: seq<Record>,
                           attemptFailures: seq<(PartitionRange, nat)>, failedPartitions: seq<PartitionRange>)

  /** The job state after attempt `n` at `range` ended with outcome `o`. */
  function AfterAttempt(log: JobLog, o: AttemptOutcome, range: PartitionRange, n: nat, maxAttempts: int): JobLog
  {
    JobLog(log.global.Add(o.counters), log.upserts + o.upserts,
           if o.ok then log.attemptFailures else log.attemptFailures + [(range, n)],
           if !o.ok && n == maxAttempts then log.failedPartitions + [range] else log.failedPartitions)
  }

  /** The job state after attempts 1..n at `range`. */
  function AfterAttempts(effect: nat -> AttemptOutcome, range: PartitionRange, maxAttempts: int, start: JobLog, n: nat)
    : JobLog
  {
    if n == 0 then start
    else AfterAttempt(AfterAttempts(effect, range, maxAttempts, start, n - 1), effect(n), range, n, maxAttempts)
  }

  /** Attempts 1..n add up their counters and writes and log their
      failures; the range is recorded failed only by a failing last allowed
      attempt. */
  lemma {:induction false} AfterAttemptsParts(effect: nat -> AttemptOutcome, range: PartitionRange, maxAttempts: int,
                                              start: JobLog, n: nat)
    requires n == 0 || n <= maxAttempts
    ensures var log := AfterAttempts(effect, range, maxAttempts, start, n);
      && log.global == TotalCounters(effect, start.global, n)
      && log.upserts == start.upserts + TotalUpserts(effect, n)
      && log.attemptFailures == start.attemptFailures + FailureLog(effect, range, n)
      && log.failedPartitions
         == (if n >= 1 && n == maxAttempts && !effect(n).ok then start.failedPartitions + [range] else start.failedPartitions)
  {
    if n == 0 {
      assert start.upserts + [] == start.upserts;
      assert start.attemptFailures + [] == start.attemptFailures;
    } else {
      AfterAttemptsParts(effect, range, maxAttempts, start, n - 1);
      var log := AfterAttempts(effect, range, maxAttempts, start, n - 1);
      assert log.upserts + effect(n).upserts == start.upserts + (TotalUpserts(effect, n - 1) + effect(n).upserts);
      assert log.failedPartitions == start.failedPartitions;
      if !effect(n).ok {
        assert log.attemptFailures + [(range, n)]
            == start.attemptFailures + (FailureLog(effect, range, n - 1) + [(range, n)]);
      }
    }
  }

  /** The retry loop after attempts 1..n, the last of which completed iff
      `done`: the earlier ones all failed, the thread counters are the last
      attempt's, and the job state is that after the n attempts. */
  ghost predicate Retrying(effect: nat -> AttemptOutcome, range: PartitionRange, maxAttempts: int, start: JobLog,
                           n: nat, done: bool, log: JobLog, thread: Counters)
  {
    && (maxAttempts >= 0 ==> n <= maxAttempts) && (maxAttempts < 0 ==> n == 0)
    && (forall j :: 1 <= j < n ==> !effect(j).ok)
    && (n >= 1 ==> (effect(n).ok <==> done) && thread == effect(n).counters)
    && (n == 0 ==> !done)
    && log == AfterAttempts(effect, range, maxAttempts, start, n)
  }

  /** When the retry loop stops, it has run exactly the attempts up to the
      first completed one, or all allowed ones, and the job state is the sum
      of those attempts. */
  lemma RetryFinished(effect: nat -> AttemptOutcome, range: PartitionRange, maxAttempts: int, start: JobLog,
                      n: nat, done: bool, log: JobLog, thread: Counters)
    requires Retrying(effect, range, maxAttempts, start, n, done, log, thread)
    requires !(n < maxAttempts && !done)
    ensures n == AttemptsRun(effect, maxAttempts)
    ensures log.global == TotalCounters(effect, start.global, n)
    ensures log.upserts == start.upserts + TotalUpserts(effect, n)
    ensures log.attemptFailures == start.attemptFailures + FailureLog(effect, range, n)
    ensures log.failedPartitions
         == (if n >= 1 && n == maxAttempts && !effect(n).ok then start.failedPartitions + [range] else start.failedPartitions)
    ensures n >= 1 ==> thread == effect(n).counters
  {
    AfterAttemptsParts(effect, range, maxAttempts, start, n);
    if maxAttempts >= 1 {
      FirstCompletedUnique(effect, maxAttempts, 1, n);
    }
  }

  // ---------------------------------------------------------------------
  // Facts the session's loops rely on

  /** The first throwing row is determined by which rows throw. */
  lemma FirstFilterFailureUnique(cfg: DiffConfig, svc: DiffServices, tmap: map<seq<Value>, Row>,
                                 rows: seq<Row>, limit: nat, k: nat)
    requires k <= limit <= |rows|
    requires NoFilterThrows(cfg, svc, tmap, rows[..k])
    requires k < limit ==> FateOf(cfg, svc, tmap, rows[k]).FilterThrows?
    ensures FirstFilterFailure(cfg, svc, tmap, rows, limit) == k
  {
    if k == limit {
      FirstFilterFailureNone(cfg, svc, tmap, rows, limit);
    } else {
      FirstFilterFailureAt(cfg, svc, tmap, rows, limit, k);
    }
  }

  /** Without a throwing row the scan reaches the limit. */
  lemma {:induction false} FirstFilterFailureNone(cfg: DiffConfig, svc: DiffServices, tmap: map<seq<Value>, Row>,
                                                  rows: seq<Row>, limit: nat)
    requires limit <= |rows| && NoFilterThrows(cfg, svc, tmap, rows[..limit])
    ensures FirstFilterFailure(cfg, svc, tmap, rows, limit) == limit
  {
    if limit > 0 {
      assert rows[..limit - 1] == rows[..limit][..limit - 1];
      FirstFilterFailureNone(cfg, svc, tmap, rows, limit - 1);
      assert rows[..limit][limit - 1] == rows[limit - 1];
    }
  }

  /** A throwing row after only non-throwing rows is where the scan stops. */
  lemma {:induction false} FirstFilterFailureAt(cfg: DiffConfig, svc: DiffServices, tmap: map<seq<Value>, Row>,
                                                rows: seq<Row>, limit: nat, k: nat)
    requires k < limit <= |rows|
    requires NoFilterThrows(cfg, svc, tmap, rows[..k]) && FateOf(cfg, svc, tmap, rows[k]).FilterThrows?
    ensures FirstFilterFailure(cfg, svc, tmap, rows, limit) == k
  {
    if limit == k + 1 {
      FirstFilterFailureNone(cfg, svc, tmap, rows, k);
    } else {
      FirstFilterFailureAt(cfg, svc, tmap, rows, limit - 1, k);
    }
  }

  /** Scanning one more row extends the scan counters and the buffered records. */
  lemma ScanOneMore(cfg: DiffConfig, svc: DiffServices, tmap: map<seq<Value>, Row>, from: Counters, rows: seq<Row>, i: nat)
    requires i < |rows|
    ensures ScanCounters(cfg, svc, tmap, from, rows[..i + 1])
         == CountRow(ScanCounters(cfg, svc, tmap, from, rows[..i]), FateOf(cfg, svc, tmap, rows[i]))
    ensures Buffered(cfg, svc, tmap, rows[..i + 1])
         == if FateOf(cfg, svc, tmap, rows[i]).Passed?
            then Buffered(cfg, svc, tmap, rows[..i]) + FateOf(cfg, svc, tmap, rows[i]).records
            else Buffered(cfg, svc, tmap, rows[..i])
  {
    assert rows[..i + 1][..i] == rows[..i];
  }

  /** A row whose filter does not throw extends a scan without throwing rows. */
  lemma NoFilterThrowsOneMore(cfg: DiffConfig, svc: DiffServices, tmap: map<seq<Value>, Row>, rows: seq<Row>, i: nat)
    requires i < |rows| && NoFilterThrows(cfg, svc, tmap, rows[..i])
    requires !FateOf(cfg, svc, tmap, rows[i]).FilterThrows?
    ensures NoFilterThrows(cfg, svc, tmap, rows[..i + 1])
  {
    var extended := rows[..i + 1];
    forall j | 0 <= j < |extended|
      ensures !FateOf(cfg, svc, tmap, extended[j]).FilterThrows?
    {
      if j < i {
        assert extended[j] == rows[..i][j];
      }
    }
  }

  /** Diffing one more record of a batch. */
  lemma DiffOneMore(cfg: DiffConfig, svc: DiffServices, records: seq<Record>, i: nat)
    requires i < |records|
    ensures var o := DiffRecord(cfg, svc, records[i]);
      DiffAll(cfg, svc, records[..i + 1])
      == BatchOutcome(DiffAll(cfg, svc, records[..i]).delta.Add(o.delta),
                      if o.upserted then DiffAll(cfg, svc, records[..i]).upserts + [records[i]]
                      else DiffAll(cfg, svc, records[..i]).upserts)
  {
    assert records[..i + 1][..i] == records[..i];
  }

  /** Admitting one more expanded record. */
  lemma AdmitOneMore(cfg: DiffConfig, svc: DiffServices, tmap: map<seq<Value>, Row>, expanded: seq<Record>, j: nat)
    requires j < |expanded|
    ensures Admitted(cfg, svc, tmap, expanded[..j + 1])
         == if PassesGuardrail(cfg, svc, expanded[j])
            then Admitted(cfg, svc, tmap, expanded[..j]) + [Join(tmap, expanded[j])]
            else Admitted(cfg, svc, tmap, expanded[..j])
    ensures GuardrailSkips(cfg, svc, expanded[..j + 1])
         == GuardrailSkips(cfg, svc, expanded[..j]) + (if PassesGuardrail(cfg, svc, expanded[j]) then 0 else 1)
  {
    assert expanded[..j + 1][..j] == expanded[..j];
  }

  /** Counting one more guardrail skip. */
  lemma SkipOneMore(base: Counters, c: Counters, k: int)
    requires c == base.(skipped := base.skipped + k)
    ensures c.Inc(Skipped) == base.(skipped := base.skipped + (k + 1))
  {
  }

  /** `all`, buffered one by one with flushes, split into the records
      already diffed and those still waiting in the buffer. */
  predicate Buffering(fetchSize: int, all: seq<Record>, diffed: seq<Record>, buffer: seq<Record>)
  {
    diffed + buffer == all && |buffer| == Pending(fetchSize, all)
  }

  lemma BufferingEmpty(fetchSize: int)
    ensures Buffering(fetchSize, [], [], [])
  {
  }

  /** Buffering one more record, and flushing when it makes the buffer
      outgrow the fetch size after a found record. */
  lemma BufferingStep(fetchSize: int, all: seq<Record>, diffed: seq<Record>, buffer: seq<Record>, r: Record)
    requires Buffering(fetchSize, all, diffed, buffer)
    ensures r.targetRow.Some? && |buffer| + 1 > fetchSize ==> Buffering(fetchSize, all + [r], diffed + (buffer + [r]), [])
    ensures !(r.targetRow.Some? && |buffer| + 1 > fetchSize) ==> Buffering(fetchSize, all + [r], diffed, buffer + [r])
  {
    DropLastOfAppend(all, [r]);
  }

  /** The records diffed while buffering are those the flush rule picks. */
  lemma BufferingFlushed(fetchSize: int, all: seq<Record>, diffed: seq<Record>, buffer: seq<Record>)
    requires Buffering(fetchSize, all, diffed, buffer)
    ensures diffed == Flushed(fetchSize, all)
  {
    assert all[..|all| - |buffer|] == diffed;
  }

  // ---------------------------------------------------------------------
  // The session

  /** A diff job over one table pair: the thread-local counters of the
      current attempt, the job-wide counters every attempt is merged into,
      the rows written to the target, the failure log and the partitions
      recorded as failed. */
  class DiffJobSession {
    const cfg: DiffConfig
    const svc: DiffServices
    var thread: Counters
    var global: Counters
    var upserts: seq<Record>
    var attemptFailures: seq<(PartitionRange, nat)>
    var failedPartitions: seq<PartitionRange>

    constructor (cfg: DiffConfig, svc: DiffServices)
      ensures this.cfg == cfg && this.svc == svc
      ensures thread == Zero && global == Zero
      ensures upserts == [] && attemptFailures == [] && failedPartitions == []
    {
      this.cfg := cfg;
      this.svc := svc;
      thread := Zero;
      global := Zero;
      upserts := [];
      attemptFailures := [];
      failedPartitions := [];
    }

    /** Upserts `record` to the target; false when the write throws. */
    method PutRecord(record: Record) returns (ok: bool)
      modifies this
      ensures ok == svc.upsertSucceeds(record)
      ensures upserts == if ok then old(upserts) + [record] else old(upserts)
      ensures thread == old(thread) && global == old(global)
      ensures attemptFailures == old(attemptFailures) && failedPartitions == old(failedPartitions)
    {
      ok := svc.upsertSucceeds(record);
      if ok {
        upserts := upserts + [record];
      }
    }

    /** Classifies one record and applies the auto-correct policy; a write
        that throws ends it early. */
    method Diff(record: Record)
      modifies this
      ensures thread == old(thread).Add(DiffRecord(cfg, svc, record).delta)
      ensures upserts == if DiffRecord(cfg, svc, record).upserted then old(upserts) + [record] else old(upserts)
      ensures global == old(global)
      ensures attemptFailures == old(attemptFailures) && failedPartitions == old(failedPartitions)
    {
      var p := cfg.policy;
      match record.targetRow
      case None =>
        thread := thread.Inc(Missing);
        if p.autoCorrectMissing && p.isCounterTable && !p.forceCounterWhenMissing {
          return;
        }
        if p.autoCorrectMissing {
          var written := PutRecord(record);
          if !written {
            return;
          }
          thread := thread.Inc(CorrectedMissing);
        }
      case Some(targetRow) =>
        if !p.skipValueCheck {
          var text := IsDifferent(cfg.columns, svc.columns, record.pk, record.originRow, targetRow);
          if text != [] {
            thread := thread.Inc(Mismatch);
            if p.autoCorrectMismatch {
              var written := PutRecord(record);
              if !written {
                return;
              }
              thread := thread.Inc(CorrectedMismatch);
            }
          } else {
            thread := thread.Inc(Valid);
          }
          thread := thread.Inc(Valid);
        }
    }

    /** Diffs every record of the buffer, each failure contained to its record. */
    method DiffAndClear(records: seq<Record>)
      modifies this
      ensures thread == old(thread).Add(DiffAll(cfg, svc, records).delta)
      ensures upserts == old(upserts) + DiffAll(cfg, svc, records).upserts
      ensures global == old(global)
      ensures attemptFailures == old(attemptFailures) && failedPartitions == old(failedPartitions)
    {
      AddZero(thread);
      assert records[..0] == [];
      var i := 0;
      while i < |records|
        invariant 0 <= i <= |records|
        invariant thread == old(thread).Add(DiffAll(cfg, svc, records[..i]).delta)
        invariant upserts == old(upserts) + DiffAll(cfg, svc, records[..i]).upserts
        invariant global == old(global)
        invariant attemptFailures == old(attemptFailures) && failedPartitions == old(failedPartitions)
      {
        ghost var before := DiffAll(cfg, svc, records[..i]);
        Diff(records[i]);
        DiffOneMore(cfg, svc, records, i);
        AddAssoc(old(thread), before.delta, DiffRecord(cfg, svc, records[i]).delta);
        i := i + 1;
      }
      assert records[..i] == records;
    }

    /** The target rows of a range keyed by primary key. */
    method BuildTargetIndex(rows: seq<Row>) returns (tmap: map<seq<Value>, Row>)
      ensures tmap == TargetIndex(svc.getTargetPK, rows)
    {
      tmap := map[];
      var i := 0;
      while i < |rows|
        invariant 0 <= i <= |rows|
        invariant tmap == TargetIndex(svc.getTargetPK, rows[..i])
      {
        assert rows[..i + 1][..i] == rows[..i];
        tmap := tmap[KeyOf(svc.getTargetPK(rows[i])) := rows[i]];
        i := i + 1;
      }
      assert rows[..i] == rows;
    }

    /** `thread` holds the scan increments `scan` plus the diff of the
        records `diffed`, and `upserts` grew by the writes of that diff. */
    ghost predicate Tracks(scan: Counters, diffed: seq<Record>, upserts0: seq<Record>)
      reads this
    {
      && thread == scan.Add(DiffAll(cfg, svc, diffed).delta)
      && upserts == upserts0 + DiffAll(cfg, svc, diffed).upserts
    }

    /** Adds a joined record to the buffer and diffs the buffer when the
        record was found on the target and the buffer outgrew the fetch size. */
    method BufferRecord(r: Record, buffer: seq<Record>,
                        ghost scan: Counters, ghost all: seq<Record>, ghost diffed: seq<Record>, ghost upserts0: seq<Record>)
      returns (buffer': seq<Record>, ghost diffed': seq<Record>)
      requires Buffering(cfg.fetchSizeInRows, all, diffed, buffer) && Tracks(scan, diffed, upserts0)
      modifies this
      ensures Buffering(cfg.fetchSizeInRows, all + [r], diffed', buffer') && Tracks(scan, diffed', upserts0)
      ensures global == old(global)
      ensures attemptFailures == old(attemptFailures) && failedPartitions == old(failedPartitions)
    {
      BufferingStep(cfg.fetchSizeInRows, all, diffed, buffer, r);
      buffer', diffed' := buffer + [r], diffed;
      if r.targetRow.Some? && |buffer'| > cfg.fetchSizeInRows {
        DiffAndClear(buffer');
        DiffAllAppend(cfg, svc, diffed, buffer');
        AddAssoc(scan, DiffAll(cfg, svc, diffed).delta, DiffAll(cfg, svc, buffer').delta);
        buffer', diffed' := [], diffed + buffer';
      }
    }

    /** Handles one record of an origin row's expansion: a record the
        guardrail rejects is counted SKIPPED, any other is joined with its
        target row and buffered. */
    method AdmitRecord(tmap: map<seq<Value>, Row>, r: Record, buffer: seq<Record>,
                       ghost scan: Counters, ghost all: seq<Record>, ghost diffed: seq<Record>, ghost upserts0: seq<Record>)
      returns (buffer': seq<Record>, ghost scan': Counters, ghost all': seq<Record>, ghost diffed': seq<Record>)
      requires Buffering(cfg.fetchSizeInRows, all, diffed, buffer) && Tracks(scan, diffed, upserts0)
      modifies this
      ensures Buffering(cfg.fetchSizeInRows, all', diffed', buffer') && Tracks(scan', diffed', upserts0)
      ensures PassesGuardrail(cfg, svc, r) ==> all' == all + [Join(tmap, r)] && scan' == scan
      ensures !PassesGuardrail(cfg, svc, r) ==> all' == all && scan' == scan.Inc(Skipped)
      ensures global == old(global)
      ensures attemptFailures == old(attemptFailures) && failedPartitions == old(failedPartitions)
    {
      if cfg.guardrailEnabled && !svc.guardrailClean(r) {
        IncAfterAdd(scan, DiffAll(cfg, svc, diffed).delta, Skipped);
        thread := thread.Inc(Skipped);
        buffer', scan', all', diffed' := buffer, scan.Inc(Skipped), all, diffed;
      } else {
        var joined := r.(targetRow := if KeyOf(r.pk) in tmap then Some(tmap[KeyOf(r.pk)]) else None);
        buffer', diffed' := BufferRecord(joined, buffer, scan, all, diffed, upserts0);
        scan', all' := scan, all + [joined];
      }
    }

    /** Handles the records an origin row expands into, in order. */
    method AdmitAll(tmap: map<seq<Value>, Row>, expanded: seq<Record>, buffer: seq<Record>,
                    ghost scan: Counters, ghost all: seq<Record>, ghost diffed: seq<Record>, ghost upserts0: seq<Record>)
      returns (buffer': seq<Record>, ghost scan': Counters, ghost all': seq<Record>, ghost diffed': seq<Record>)
      requires Buffering(cfg.fetchSizeInRows, all, diffed, buffer) && Tracks(scan, diffed, upserts0)
      modifies this
      ensures Buffering(cfg.fetchSizeInRows, all', diffed', buffer') && Tracks(scan', diffed', upserts0)
      ensures all' == all + Admitted(cfg, svc, tmap, expanded)
      ensures scan' == scan.(skipped := scan.skipped + GuardrailSkips(cfg, svc, expanded))
      ensures global == old(global)
      ensures attemptFailures == old(attemptFailures) && failedPartitions == old(failedPartitions)
    {
      buffer', scan', all', diffed' := buffer, scan, all, diffed;
      assert expanded[..0] == [];
      var j := 0;
      while j < |expanded|
        invariant 0 <= j <= |expanded|
        invariant Buffering(cfg.fetchSizeInRows, all', diffed', buffer') && Tracks(scan', diffed', upserts0)
        invariant all' == all + Admitted(cfg, svc, tmap, expanded[..j])
        invariant scan' == scan.(skipped := scan.skipped + GuardrailSkips(cfg, svc, expanded[..j]))
        invariant global == old(global)
        invariant attemptFailures == old(attemptFailures) && failedPartitions == old(failedPartitions)
      {
        buffer', scan', all', diffed' := AdmitNext(tmap, expanded, j, buffer', scan, all, scan', all', diffed', upserts0);
        j := j + 1;
      }
      assert expanded[..j] == expanded;
    }

    /** Handles record `j` of an origin row's expansion, after records
        0..j-1 were handled starting from `scan0` and `all0`. */
    method AdmitNext(tmap: map<seq<Value>, Row>, expanded: seq<Record>, j: nat, buffer: seq<Record>,
                     ghost scan0: Counters, ghost all0: seq<Record>,
                     ghost scan: Counters, ghost all: seq<Record>, ghost diffed: seq<Record>, ghost upserts0: seq<Record>)
      returns (buffer': seq<Record>, ghost scan': Counters, ghost all': seq<Record>, ghost diffed': seq<Record>)
      requires j < |expanded|
      requires Buffering(cfg.fetchSizeInRows, all, diffed, buffer) && Tracks(scan, diffed, upserts0)
      requires all == all0 + Admitted(cfg, svc, tmap, expanded[..j])
      requires scan == scan0.(skipped := scan0.skipped + GuardrailSkips(cfg, svc, expanded[..j]))
      modifies this
      ensures Buffering(cfg.fetchSizeInRows, all', diffed', buffer') && Tracks(scan', diffed', upserts0)
      ensures all' == all0 + Admitted(cfg, svc, tmap, expanded[..j + 1])
      ensures scan' == scan0.(skipped := scan0.skipped + GuardrailSkips(cfg, svc, expanded[..j + 1]))
      ensures global == old(global)
      ensures attemptFailures == old(attemptFailures) && failedPartitions == old(failedPartitions)
    {
      AdmitOneMore(cfg, svc, tmap, expanded, j);
      AppendAssoc(all0, Admitted(cfg, svc, tmap, expanded[..j]), [Join(tmap, expanded[j])]);
      SkipOneMore(scan0, scan, GuardrailSkips(cfg, svc, expanded[..j]));
      buffer', scan', all', diffed' := AdmitRecord(tmap, expanded[j], buffer, scan, all, diffed, upserts0);
    }

    /** Handles one origin row: READ, then the filter, then its records.
        Returns true when the filter throws, which fails the attempt. */
    method ScanRow(tmap: map<seq<Value>, Row>, row: Row, buffer: seq<Record>,
                   ghost scan: Counters, ghost all: seq<Record>, ghost diffed: seq<Record>, ghost upserts0: seq<Record>)
      returns (throws: bool, buffer': seq<Record>, ghost scan': Counters, ghost all': seq<Record>, ghost diffed': seq<Record>)
      requires Buffering(cfg.fetchSizeInRows, all, diffed, buffer) && Tracks(scan, diffed, upserts0)
      modifies this
      ensures Buffering(cfg.fetchSizeInRows, all', diffed', buffer') && Tracks(scan', diffed', upserts0)
      ensures throws == FateOf(cfg, svc, tmap, row).FilterThrows?
      ensures throws ==> scan' == scan.Inc(Read)
      ensures !throws ==> scan' == CountRow(scan, FateOf(cfg, svc, tmap, row))
      ensures all' == if FateOf(cfg, svc, tmap, row).Passed? then all + FateOf(cfg, svc, tmap, row).records else all
      ensures global == old(global)
      ensures attemptFailures == old(attemptFailures) && failedPartitions == old(failedPartitions)
    {
      var record := OriginRecord(svc, row);
      IncAfterAdd(scan, DiffAll(cfg, svc, diffed).delta, Read);
      thread := thread.Inc(Read);
      buffer', scan', all', diffed' := buffer, scan.Inc(Read), all, diffed;
      match ShouldFilterRecord(cfg.filter, Some(record))
      case Failure(_) =>
        throws := true;
      case Success(filtered) =>
        throws := false;
        if filtered {
          IncAfterAdd(scan', DiffAll(cfg, svc, diffed).delta, Skipped);
          thread := thread.Inc(Skipped);
          scan' := scan'.Inc(Skipped);
        } else {
          buffer', scan', all', diffed' := AdmitAll(tmap, svc.toValidRecordList(record), buffer', scan', all', diffed', upserts0);
        }
    }

    /** Scans the first `limit` origin rows, stopping at a row whose filter
        throws. */
    method ScanOrigin(tmap: map<seq<Value>, Row>, rows: seq<Row>, limit: nat)
      returns (throws: bool, i: nat, buffer: seq<Record>, ghost scan: Counters, ghost all: seq<Record>, ghost diffed: seq<Record>)
      requires limit <= |rows|
      modifies this
      ensures Buffering(cfg.fetchSizeInRows, all, diffed, buffer) && Tracks(scan, diffed, old(upserts))
      ensures i <= limit && NoFilterThrows(cfg, svc, tmap, rows[..i])
      ensures throws ==> i < limit && FateOf(cfg, svc, tmap, rows[i]).FilterThrows?
      ensures !throws ==> i == limit
      ensures all == Buffered(cfg, svc, tmap, rows[..i])
      ensures !throws ==> scan == ScanCounters(cfg, svc, tmap, old(thread), rows[..i])
      ensures throws ==> scan == ScanCounters(cfg, svc, tmap, old(thread), rows[..i]).Inc(Read)
      ensures global == old(global)
      ensures attemptFailures == old(attemptFailures) && failedPartitions == old(failedPartitions)
    {
      ghost var upserts0 := upserts;
      buffer, scan, all, diffed := [], thread, [], [];
      BufferingEmpty(cfg.fetchSizeInRows);
      AddZero(thread);
      assert rows[..0] == [];
      i, throws := 0, false;
      while i < limit && !throws
        invariant 0 <= i <= limit
        invariant Buffering(cfg.fetchSizeInRows, all, diffed, buffer) && Tracks(scan, diffed, upserts0)
        invariant NoFilterThrows(cfg, svc, tmap, rows[..i])
        invariant all == Buffered(cfg, svc, tmap, rows[..i])
        invariant !throws ==> scan == ScanCounters(cfg, svc, tmap, old(thread), rows[..i])
        invariant throws ==> i < limit && FateOf(cfg, svc, tmap, rows[i]).FilterThrows?
        invariant throws ==> scan == ScanCounters(cfg, svc, tmap, old(thread), rows[..i]).Inc(Read)
        invariant global == old(global)
        invariant attemptFailures == old(attemptFailures) && failedPartitions == old(failedPartitions)
        decreases limit - i, if throws then 0 else 1
      {
        ScanOneMore(cfg, svc, tmap, old(thread), rows, i);
        throws, buffer, scan, all, diffed := ScanRow(tmap, rows[i], buffer, scan, all, diffed, upserts0);
        if !throws {
          NoFilterThrowsOneMore(cfg, svc, tmap, rows, i);
          i := i + 1;
        }
      }
    }

    /** One attempt at a range: reset the thread counters, index the target
        rows, scan the origin rows, and diff what is left in the buffer when
        the scan completes. */
    method ProcessAttempt(a: Attempt) returns (ok: bool)
      modifies this
      ensures ok == AttemptEffect(cfg, svc, a).ok
      ensures thread == AttemptEffect(cfg, svc, a).counters
      ensures upserts == old(upserts) + AttemptEffect(cfg, svc, a).upserts
      ensures global == old(global)
      ensures attemptFailures == old(attemptFailures) && failedPartitions == old(failedPartitions)
    {
      thread := Zero;
      var tmap := BuildTargetIndex(a.targetRows);
      if cfg.fetchSizeInRows < 0 {
        // allocating the buffer throws
        return false;
      }
      var limit := ReadLimit(a);
      var throws, i, buffer, scan, all, diffed := ScanOrigin(tmap, a.originRows, limit);
      FirstFilterFailureUnique(cfg, svc, tmap, a.originRows, limit, i);
      BufferingFlushed(cfg.fetchSizeInRows, all, diffed, buffer);
      if !throws && a.failsAfter.None? {
        assert a.originRows[..i] == a.originRows;
        DiffAndClear(buffer);
        DiffAllAppend(cfg, svc, diffed, buffer);
        AddAssoc(scan, DiffAll(cfg, svc, diffed).delta, DiffAll(cfg, svc, buffer).delta);
        AppendAssoc(old(upserts), DiffAll(cfg, svc, diffed).upserts, DiffAll(cfg, svc, buffer).upserts);
        ok := true;
      } else {
        ok := false;
      }
    }

    /** The job-wide state, as one value. */
    ghost function Log(): JobLog
      reads this
    {
      JobLog(global, upserts, attemptFailures, failedPartitions)
    }

    /** Attempt `n` at `range`: process it, log it when it fails, record
        the range as failed when the last allowed attempt fails, and merge
        the thread counters into the job counters whatever the outcome. */
    method RunAttempt(range: PartitionRange, attempts: nat -> Attempt, n: nat, maxAttempts: int) returns (ok: bool)
      modifies this
      ensures ok == Effects(cfg, svc, attempts)(n).ok
      ensures thread == Effects(cfg, svc, attempts)(n).counters
      ensures Log() == AfterAttempt(old(Log()), Effects(cfg, svc, attempts)(n), range, n, maxAttempts)
    {
      assert Effects(cfg, svc, attempts)(n) == AttemptEffect(cfg, svc, attempts(n));
      ok := ProcessAttempt(attempts(n));
      if !ok {
        attemptFailures := attemptFailures + [(range, n)];
        if n == maxAttempts {
          failedPartitions := failedPartitions + [range];
        }
      }
      global := global.Add(thread);
    }

    /** Diffs one partition range, retrying the whole range on failure up to
        `maxRetries` more times. Every attempt's counters are merged into the
        job counters, completed or not; every failed attempt is logged, and
        the range is recorded as failed when the last allowed attempt fails. */
    method GetDataAndDiff(range: PartitionRange, attempts: nat -> Attempt) returns (attemptsRun: nat)
      modifies this
      ensures var effect := Effects(cfg, svc, attempts);
        && attemptsRun == AttemptsRun(effect, cfg.maxRetries + 1)
        && global == TotalCounters(effect, old(global), attemptsRun)
        && upserts == old(upserts) + TotalUpserts(effect, attemptsRun)
        && attemptFailures == old(attemptFailures) + FailureLog(effect, range, attemptsRun)
        && failedPartitions
           == (if attemptsRun >= 1 && attemptsRun == cfg.maxRetries + 1 && !effect(attemptsRun).ok
               then old(failedPartitions) + [range] else old(failedPartitions))
        && (attemptsRun >= 1 ==> thread == effect(attemptsRun).counters)
        && (attemptsRun == 0 ==> thread == old(thread))
    {
      var maxAttempts := cfg.maxRetries + 1;
      ghost var effect := Effects(cfg, svc, attempts);
      ghost var start := Log();
      var done := false;
      var n := 0;
      while n < maxAttempts && !done
        invariant Retrying(effect, range, maxAttempts, start, n, done, Log(), thread)
        invariant n == 0 ==> thread == old(thread)
        decreases maxAttempts - n, if done then 0 else 1
      {
        n := n + 1;
        done := RunAttempt(range, attempts, n, maxAttempts);
      }
      attemptsRun := n;
      RetryFinished(effect, range, maxAttempts, start, n, done, Log(), thread);
    }
  }
}
