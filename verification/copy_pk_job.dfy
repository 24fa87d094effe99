/** The copy-by-key engine: each key string of each batch is parsed into a
    primary key, its origin row is looked up, filtered, and upserted to the
    target, and every key is counted READ and then MISSING, SKIPPED or
    WRITTEN. An exception raised for one key ends the whole run. */
module CopyPKJob {
  import opened Common
  import opened Text
  import opened OriginSelect

  /** The literal separating the fields of a key string. */
  const KeySeparator := " %% "

  const TooManyFields := "key has more fields than the key has columns"
  const Unparsable := "key field cannot be parsed"

  /** The configured record filter and the progress-report interval. */
  datatype CopyConfig = CopyConfig(filter: FilterConfig, printStatsAfter: int)

  /** The collaborators of the engine, as given functions: a text parser per
      origin key column in key order (None: the text is rejected), the key
      factory building a primary key from parsed values (None: no key), the
      origin lookup by key (None: no row; Failure: the read throws), the
      target key of an origin row, and whether the upsert of a record
      succeeds. */
  datatype CopyServices = CopyServices(
    parsers: seq<string -> Option<Value>>,
    toEnhancedPK: seq<Value> -> Option<PrimaryKey>,
    getRecord: PrimaryKey -> Result<Option<Row>>,
    getTargetPK: Row -> PrimaryKey,
    upsertSucceeds: Record -> bool)

  // ---------------------------------------------------------------------
  // Key parsing

  /** Parses field i of `fields` with parser i, in order; fails at the first
      field without a parser or whose parser rejects it. */
  function ParseFields(parsers: seq<string -> Option<Value>>, fields: seq<string>): Result<seq<Value>>
  {
    if fields == [] then Success([])
    else
      var i := |fields| - 1;
      match ParseFields(parsers, fields[..i])
      case Failure(e) => Failure(e)
      case Success(vs) =>
        if i >= |parsers| then Failure(TooManyFields)
        else match parsers[i](fields[i])
          case None => Failure(Unparsable)
          case Some(v) => Success(vs + [v])
  }

  /** Parsing succeeds iff every field has a parser that accepts it, and then
      yields one value per field, each the parse of its field. */
  lemma {:induction false} ParseFieldsMeaning(parsers: seq<string -> Option<Value>>, fields: seq<string>)
    ensures ParseFields(parsers, fields).Success? <==>
      |fields| <= |parsers| && forall i :: 0 <= i < |fields| ==> parsers[i](fields[i]).Some?
    ensures ParseFields(parsers, fields).Success? ==>
      var vs := ParseFields(parsers, fields).value;
      |vs| == |fields| && forall i :: 0 <= i < |fields| ==> vs[i] == parsers[i](fields[i]).value
  {
    if fields != [] {
      var n := |fields| - 1;
      var prefix := fields[..n];
      ParseFieldsMeaning(parsers, prefix);
      assert forall i :: 0 <= i < n ==> prefix[i] == fields[i];
      if ParseFields(parsers, prefix).Success? && n < |parsers| && parsers[n](fields[n]).Some? {
        var vs := ParseFields(parsers, prefix).value;
        assert ParseFields(parsers, fields).value == vs + [parsers[n](fields[n]).value];
      }
    }
  }

  /** A failure at some field is the result of the whole parse. */
  lemma {:induction false} ParseFieldsStopsAtFailure(parsers: seq<string -> Option<Value>>, fields: seq<string>, k: nat)
    requires k <= |fields| && ParseFields(parsers, fields[..k]).Failure?
    ensures ParseFields(parsers, fields) == ParseFields(parsers, fields[..k])
    decreases |fields| - k
  {
    if k == |fields| {
      assert fields[..k] == fields;
    } else {
      var n := |fields| - 1;
      assert fields[..n][..k] == fields[..k];
      ParseFieldsStopsAtFailure(parsers, fields[..n], k);
    }
  }

  /** The primary key of a key string: split on the separator, parse the
      fields, build the key; Failure stands for the exception a missing or
      rejecting parser raises. */
  function EnhancedPKOf(svc: CopyServices, key: string): Result<Option<PrimaryKey>>
  {
    match ParseFields(svc.parsers, JavaSplit(key, KeySeparator))
    case Failure(e) => Failure(e)
    case Success(vs) => Success(svc.toEnhancedPK(vs))
  }

  /** A key string with more fields than the key has columns is an error. */
  lemma TooManyFieldsFails(svc: CopyServices, key: string)
    requires |JavaSplit(key, KeySeparator)| > |svc.parsers|
    ensures EnhancedPKOf(svc, key).Failure?
  {
    ParseFieldsMeaning(svc.parsers, JavaSplit(key, KeySeparator));
  }

  /** Fields a key string can be written as: at least one, none holding a
      '%', and the last not empty. Spaces are allowed. */
  predicate KeyFields(fields: seq<string>)
  {
    |fields| >= 1 && fields[|fields| - 1] != [] && forall i :: 0 <= i < |fields| ==> '%' !in fields[i]
  }

  /** A field without '%' is clear of the separator: every occurrence of
      the separator has a '%' in its second place, which neither the field
      nor the space opening the separator after it can supply. */
  lemma PercentFreeIsClear(f: string)
    requires '%' !in f
    ensures ClearOf(f, KeySeparator)
  {
    var s := f + KeySeparator;
    forall j | 0 <= j < |f|
      ensures !OccursAt(s, KeySeparator, j)
    {
      if j + 1 < |f| {
        assert s[j + 1] == f[j + 1];
      } else {
        assert s[j + 1] == KeySeparator[0];
      }
      assert j + |KeySeparator| <= |s| ==> s[j..j + |KeySeparator|][1] == s[j + 1];
    }
  }

  /** Key fields can be joined with the separator and split back. */
  lemma KeyFieldsJoinable(fields: seq<string>)
    requires KeyFields(fields)
    ensures Joinable(fields, KeySeparator)
  {
    forall i | 0 <= i < |fields|
      ensures ClearOf(fields[i], KeySeparator)
    {
      PercentFreeIsClear(fields[i]);
    }
  }

  /** Encoding a key as its fields joined by the separator and decoding it
      again gives the key the factory builds from the parsed fields `vs`,
      when no field holds a '%' and the last is not empty. */
  lemma EnhancedPKOfJoin(svc: CopyServices, fields: seq<string>, vs: seq<Value>)
    requires KeyFields(fields)
    requires ParsesTo(svc.parsers, fields, vs)
    ensures EnhancedPKOf(svc, JoinWith(fields, KeySeparator)) == Success(svc.toEnhancedPK(vs))
  {
    KeyFieldsJoinable(fields);
    JavaSplitJoin(fields, KeySeparator);
    ParseFieldsOf(svc.parsers, fields, vs);
  }

  /** A key with a space in a field, such as a city name, round-trips. */
  lemma SpacedKeyRoundTrips(svc: CopyServices, v0: Value, v1: Value)
    requires |svc.parsers| >= 2
    requires svc.parsers[0]("New York") == Some(v0) && svc.parsers[1]("42") == Some(v1)
    ensures EnhancedPKOf(svc, "New York %% 42") == Success(svc.toEnhancedPK([v0, v1]))
  {
    var fields := ["New York", "42"];
    assert JoinWith(fields, KeySeparator) == "New York %% 42";
    EnhancedPKOfJoin(svc, fields, [v0, v1]);
  }

  /** Each of `fields` parses, with the parser of its position, to the
      value at the same position of `vs`. */
  ghost predicate ParsesTo(parsers: seq<string -> Option<Value>>, fields: seq<string>, vs: seq<Value>)
  {
    |vs| == |fields| <= |parsers| &&
    forall i :: 0 <= i < |fields| ==> parsers[i](fields[i]) == Some(vs[i])
  }

  /** Fields that parse to `vs` one by one parse to `vs` together. */
  lemma {:induction false} ParseFieldsOf(parsers: seq<string -> Option<Value>>, fields: seq<string>, vs: seq<Value>)
    requires ParsesTo(parsers, fields, vs)
    ensures ParseFields(parsers, fields) == Success(vs)
  {
    if fields != [] {
      var n := |fields| - 1;
      assert forall i :: 0 <= i < n ==> fields[..n][i] == fields[i] && vs[..n][i] == vs[i];
      ParseFieldsOf(parsers, fields[..n], vs[..n]);
      assert vs[..n] + [vs[n]] == vs;
    }
  }

  // ---------------------------------------------------------------------
  // One key

  /** What happens to one key string. */
  datatype KeyFate =
    | KeyUnparsable        // parsing the key throws
    | KeyMissing           // no key, or a key in error state
    | ReadThrows           // the origin lookup throws
    | RowMissing           // no origin row for the key
    | FilterThrows         // reading the filter column throws
    | Filtered             // the filter removes the record
    | UpsertThrows         // the upsert throws
    | Upserted(record: Record)

  function FateOfKey(cfg: CopyConfig, svc: CopyServices, key: string): KeyFate
  {
    match EnhancedPKOf(svc, key)
    case Failure(_) => KeyUnparsable
    case Success(pk) =>
      if pk.None? || pk.value.IsError() then KeyMissing
      else match svc.getRecord(pk.value)
        case Failure(_) => ReadThrows
        case Success(None) => RowMissing
        case Success(Some(originRow)) =>
          var record := Record(svc.getTargetPK(originRow), originRow, None);
          match ShouldFilterRecord(cfg.filter, Some(record))
          case Failure(_) => FilterThrows
          case Success(filtered) =>
            if filtered then Filtered
            else if svc.upsertSucceeds(record) then Upserted(record)
            else UpsertThrows
  }

  /** A non-final or final report of the counters. */
  datatype Snapshot = Snapshot(isFinal: bool, counts: Counters)

  /** The state of a run: the counters, the records written, the progress
      reports, and whether an exception ended the run. */
  datatype CopyState = CopyState(counters: Counters, writes: seq<Record>, snapshots: seq<Snapshot>, aborted: bool)

  /** Handles one key: READ, then MISSING, SKIPPED or an upsert and WRITTEN,
      followed by a progress report when the read count is a multiple of the
      interval (a zero interval makes that check throw). Nothing happens
      once the run is aborted. */
  function StepKey(cfg: CopyConfig, svc: CopyServices, s: CopyState, key: string): CopyState
  {
    if s.aborted then s
    else
      var c := s.counters.Inc(Read);
      match FateOfKey(cfg, svc, key)
      case KeyUnparsable => s.(counters := c, aborted := true)
      case KeyMissing => s.(counters := c.Inc(Missing))
      case ReadThrows => s.(counters := c, aborted := true)
      case RowMissing => s.(counters := c.Inc(Missing))
      case FilterThrows => s.(counters := c, aborted := true)
      case Filtered => s.(counters := c.Inc(Skipped))
      case UpsertThrows => s.(counters := c, aborted := true)
      case Upserted(record) =>
        var w := c.Inc(Written);
        if cfg.printStatsAfter == 0 then CopyState(w, s.writes + [record], s.snapshots, true)
        else if w.read % cfg.printStatsAfter == 0 then
          CopyState(w, s.writes + [record], s.snapshots + [Snapshot(false, w)], false)
        else CopyState(w, s.writes + [record], s.snapshots, false)
  }

  /** How far a key leaves READ ahead of the outcome counters. */
  function Unaccounted(c: Counters): int
  {
    c.read - c.missing - c.skipped - c.written
  }

  /** A key is read once and then counted MISSING, SKIPPED or WRITTEN
      exactly when it has no usable key or origin row, is filtered, or is
      upserted; it is written exactly when it is counted WRITTEN; an
      exception leaves it counted READ only, unless it came after the write. */
  lemma StepKeyClassifies(cfg: CopyConfig, svc: CopyServices, s: CopyState, key: string)
    requires !s.aborted
    ensures var r := StepKey(cfg, svc, s, key);
      var f := FateOfKey(cfg, svc, key);
      && r.counters.read == s.counters.read + 1
      && r.counters.missing == s.counters.missing + (if f.KeyMissing? || f.RowMissing? then 1 else 0)
      && r.counters.skipped == s.counters.skipped + (if f.Filtered? then 1 else 0)
      && r.counters.written == s.counters.written + (if f.Upserted? then 1 else 0)
      && r.writes == (if f.Upserted? then s.writes + [f.record] else s.writes)
      && (r.aborted <==> f.KeyUnparsable? || f.ReadThrows? || f.FilterThrows? || f.UpsertThrows?
                         || (f.Upserted? && cfg.printStatsAfter == 0))
      && Unaccounted(r.counters) == Unaccounted(s.counters) + (if r.aborted && !f.Upserted? then 1 else 0)
  {
  }

  /** Whether handling `key` from state `s` is due to report progress: the
      run goes on, the key is written, and its read count is a multiple of a
      non-zero interval. */
  predicate ReportDue(cfg: CopyConfig, svc: CopyServices, s: CopyState, key: string)
  {
    && !s.aborted && FateOfKey(cfg, svc, key).Upserted? && cfg.printStatsAfter != 0
    && StepKey(cfg, svc, s, key).counters.read % cfg.printStatsAfter == 0
  }

  /** A key adds at most one progress report, a non-final one of the new
      counters, and it adds one exactly when a report is due. */
  lemma StepKeyReports(cfg: CopyConfig, svc: CopyServices, s: CopyState, key: string)
    ensures var r := StepKey(cfg, svc, s, key);
      && (r.snapshots == s.snapshots || r.snapshots == s.snapshots + [Snapshot(false, r.counters)])
      && (|r.snapshots| == |s.snapshots| + 1 <==>
            && !s.aborted && FateOfKey(cfg, svc, key).Upserted? && cfg.printStatsAfter != 0
            && r.counters.read % cfg.printStatsAfter == 0)
  {
  }

  /** Keys handled in order. */
  function RunKeys(cfg: CopyConfig, svc: CopyServices, s: CopyState, keys: seq<string>): CopyState
  {
    if keys == [] then s else StepKey(cfg, svc, RunKeys(cfg, svc, s, keys[..|keys| - 1]), keys[|keys| - 1])
  }

  /** The keys of all batches, in order. */
  function Concat(batches: seq<seq<string>>): seq<string>
  {
    if batches == [] then [] else Concat(batches[..|batches| - 1]) + batches[|batches| - 1]
  }

  /** Batches handled in order. */
  function RunBatches(cfg: CopyConfig, svc: CopyServices, s: CopyState, batches: seq<seq<string>>): CopyState
  {
    if batches == [] then s
    else RunKeys(cfg, svc, RunBatches(cfg, svc, s, batches[..|batches| - 1]), batches[|batches| - 1])
  }

  /** The final report, made only when the run was not aborted. */
  function Finish(s: CopyState): CopyState
  {
    if s.aborted then s else s.(snapshots := s.snapshots + [Snapshot(true, s.counters)])
  }

  /** An aborted run stays as it is. */
  lemma {:induction false} RunKeysAborted(cfg: CopyConfig, svc: CopyServices, s: CopyState, keys: seq<string>)
    requires s.aborted
    ensures RunKeys(cfg, svc, s, keys) == s
  {
    if keys != [] {
      RunKeysAborted(cfg, svc, s, keys[..|keys| - 1]);
    }
  }

  /** Once a prefix of the keys aborts the run, the rest change nothing. */
  lemma {:induction false} RunKeysAbortedPrefix(cfg: CopyConfig, svc: CopyServices, s: CopyState,
                                                keys: seq<string>, k: nat)
    requires k <= |keys| && RunKeys(cfg, svc, s, keys[..k]).aborted
    ensures RunKeys(cfg, svc, s, keys) == RunKeys(cfg, svc, s, keys[..k])
    decreases |keys| - k
  {
    if k == |keys| {
      assert keys[..k] == keys;
    } else {
      var n := |keys| - 1;
      assert keys[..n][..k] == keys[..k];
      RunKeysAbortedPrefix(cfg, svc, s, keys[..n], k);
    }
  }

  /** Handling `a + b` is handling `a`, then `b`. */
  lemma {:induction false} RunKeysAppend(cfg: CopyConfig, svc: CopyServices, s: CopyState, a: seq<string>, b: seq<string>)
    ensures RunKeys(cfg, svc, s, a + b) == RunKeys(cfg, svc, RunKeys(cfg, svc, s, a), b)
    decreases |b|
  {
    if b == [] {
      assert a + b == a;
    } else {
      DropLastOfAppend(a, b);
      RunKeysAppend(cfg, svc, s, a, b[..|b| - 1]);
    }
  }

  /** Handling the batches one after another is handling all their keys in order. */
  lemma {:induction false} RunBatchesIsRunKeys(cfg: CopyConfig, svc: CopyServices, s: CopyState, batches: seq<seq<string>>)
    ensures RunBatches(cfg, svc, s, batches) == RunKeys(cfg, svc, s, Concat(batches))
  {
    if batches != [] {
      var n := |batches| - 1;
      RunBatchesIsRunKeys(cfg, svc, s, batches[..n]);
      RunKeysAppend(cfg, svc, s, Concat(batches[..n]), batches[n]);
    }
  }

  /** Over a run of keys: READ grows by one per key handled, and by exactly
      the number of keys when the run completes; every key read is counted
      MISSING, SKIPPED or WRITTEN except, when the run aborts, the one that
      raised; the records written are the earlier ones followed by one per
      WRITTEN; and no counter decreases. */
  lemma {:induction false} RunKeysAccounting(cfg: CopyConfig, svc: CopyServices, s: CopyState, keys: seq<string>)
    requires !s.aborted
    ensures var r := RunKeys(cfg, svc, s, keys);
      && s.counters.read <= r.counters.read <= s.counters.read + |keys|
      && (!r.aborted ==> r.counters.read == s.counters.read + |keys|)
      && (!r.aborted ==> Unaccounted(r.counters) == Unaccounted(s.counters))
      && (r.aborted ==> Unaccounted(s.counters) <= Unaccounted(r.counters) <= Unaccounted(s.counters) + 1)
      && r.counters.missing >= s.counters.missing && r.counters.skipped >= s.counters.skipped
      && r.counters.written >= s.counters.written
      && |r.writes| == |s.writes| + (r.counters.written - s.counters.written)
      && r.writes[..|s.writes|] == s.writes
  {
    if keys != [] {
      var prefix := keys[..|keys| - 1];
      RunKeysAccounting(cfg, svc, s, prefix);
      var p := RunKeys(cfg, svc, s, prefix);
      if p.aborted {
        assert RunKeys(cfg, svc, s, keys) == p;
      } else {
        StepKeyClassifies(cfg, svc, p, keys[|keys| - 1]);
        var r := RunKeys(cfg, svc, s, keys);
        assert r.writes[..|p.writes|] == p.writes;
        assert p.writes[..|s.writes|] == s.writes;
        assert r.writes[..|s.writes|] == r.writes[..|p.writes|][..|s.writes|];
      }
    }
  }

  /** Every progress report made while handling keys is non-final and comes
      at a read count that is a multiple of the interval; conversely every
      key for which a report is due adds a report of the counters right
      after it. */
  lemma {:induction false} ProgressReportsAtInterval(cfg: CopyConfig, svc: CopyServices, s: CopyState, keys: seq<string>)
    ensures var r := RunKeys(cfg, svc, s, keys);
      && |s.snapshots| <= |r.snapshots| && r.snapshots[..|s.snapshots|] == s.snapshots
      && forall i :: |s.snapshots| <= i < |r.snapshots| ==>
           !r.snapshots[i].isFinal && cfg.printStatsAfter != 0
           && r.snapshots[i].counts.read % cfg.printStatsAfter == 0
    ensures forall k :: 0 <= k < |keys| && ReportDue(cfg, svc, RunKeys(cfg, svc, s, keys[..k]), keys[k]) ==>
      Snapshot(false, RunKeys(cfg, svc, s, keys[..k + 1]).counters)
        in RunKeys(cfg, svc, s, keys).snapshots[|s.snapshots|..]
  {
    if keys != [] {
      var n := |keys| - 1;
      var prefix := keys[..n];
      ProgressReportsAtInterval(cfg, svc, s, prefix);
      var p := RunKeys(cfg, svc, s, prefix);
      StepKeyReports(cfg, svc, p, keys[n]);
      var r := RunKeys(cfg, svc, s, keys);
      assert r.snapshots[..|p.snapshots|] == p.snapshots;
      assert r.snapshots[..|s.snapshots|] == r.snapshots[..|p.snapshots|][..|s.snapshots|];
      forall k | 0 <= k < |keys| && ReportDue(cfg, svc, RunKeys(cfg, svc, s, keys[..k]), keys[k])
        ensures Snapshot(false, RunKeys(cfg, svc, s, keys[..k + 1]).counters) in r.snapshots[|s.snapshots|..]
      {
        if k < n {
          assert keys[..k] == prefix[..k] && keys[..k + 1] == prefix[..k + 1] && keys[k] == prefix[k];
          var x := Snapshot(false, RunKeys(cfg, svc, s, keys[..k + 1]).counters);
          assert x in p.snapshots[|s.snapshots|..];
          assert p.snapshots[|s.snapshots|..] == r.snapshots[|s.snapshots|..|p.snapshots|];
        } else {
          assert keys[..k] == prefix && keys[..k + 1] == keys;
          assert r.snapshots == p.snapshots + [Snapshot(false, r.counters)];
          assert r.snapshots[|r.snapshots| - 1] == Snapshot(false, r.counters);
        }
      }
    }
  }

  /** With a non-zero interval, a key written at a multiple of it is
      reported, so a run of written keys reports at every multiple. */
  lemma DueKeyReported(cfg: CopyConfig, svc: CopyServices, s: CopyState, key: string)
    requires !s.aborted && cfg.printStatsAfter != 0
    requires FateOfKey(cfg, svc, key).Upserted? && (s.counters.read + 1) % cfg.printStatsAfter == 0
    ensures StepKey(cfg, svc, s, key).snapshots
      == s.snapshots + [Snapshot(false, StepKey(cfg, svc, s, key).counters)]
  {
    StepKeyReports(cfg, svc, s, key);
  }

  /** A completed run ends with exactly one final report, of the final
      counters; an aborted run makes none. */
  lemma FinishReports(s: CopyState)
    ensures !s.aborted ==> Finish(s).snapshots == s.snapshots + [Snapshot(true, s.counters)]
    ensures s.aborted ==> Finish(s).snapshots == s.snapshots
    ensures Finish(s).counters == s.counters && Finish(s).writes == s.writes
  {
  }

  // ---------------------------------------------------------------------
  // The session

  /** A copy job over one table pair: its counters, the records written to
      the target and the progress reports made. */
  class CopyPKJobSession {
    const cfg: CopyConfig
    const svc: CopyServices
    var counters: Counters
    var writes: seq<Record>
    var snapshots: seq<Snapshot>

    constructor (cfg: CopyConfig, svc: CopyServices)
      ensures this.cfg == cfg && this.svc == svc
      ensures counters == Zero && writes == [] && snapshots == []
    {
      this.cfg := cfg;
      this.svc := svc;
      counters := Zero;
      writes := [];
      snapshots := [];
    }

    /** The session's state as a value. */
    ghost function State(aborted: bool): CopyState
      reads this
    {
      CopyState(counters, writes, snapshots, aborted)
    }

    /** Parses a key string field by field. */
    method ToEnhancedPK(key: string) returns (r: Result<Option<PrimaryKey>>)
      ensures r == EnhancedPKOf(svc, key)
    {
      var fields := JavaSplit(key, KeySeparator);
      var values := [];
      var i := 0;
      assert fields[..0] == [];
      while i < |fields|
        invariant 0 <= i <= |fields|
        invariant ParseFields(svc.parsers, fields[..i]) == Success(values)
      {
        assert fields[..i + 1][..i] == fields[..i];
        if i >= |svc.parsers| {
          ParseFieldsStopsAtFailure(svc.parsers, fields, i + 1);
          return Failure(TooManyFields);
        }
        match svc.parsers[i](fields[i]) {
          case None =>
            ParseFieldsStopsAtFailure(svc.parsers, fields, i + 1);
            return Failure(Unparsable);
          case Some(v) =>
            values := values + [v];
        }
        i := i + 1;
      }
      assert fields[..i] == fields;
      r := Success(svc.toEnhancedPK(values));
    }

    /** Upserts `record` to the target; false when the write throws. */
    method PutRecord(record: Record) returns (ok: bool)
      modifies this
      ensures ok == svc.upsertSucceeds(record)
      ensures writes == if ok then old(writes) + [record] else old(writes)
      ensures counters == old(counters) && snapshots == old(snapshots)
    {
      ok := svc.upsertSucceeds(record);
      if ok {
        writes := writes + [record];
      }
    }

    /** Reports the counters. */
    method PrintCounts(isFinal: bool)
      modifies this
      ensures snapshots == old(snapshots) + [Snapshot(isFinal, counters)]
      ensures counters == old(counters) && writes == old(writes)
    {
      snapshots := snapshots + [Snapshot(isFinal, counters)];
    }

    /** Handles one key string; true when an exception ends the run. */
    method ProcessKey(key: string) returns (aborted: bool)
      modifies this
      ensures State(aborted) == StepKey(cfg, svc, old(State(false)), key)
    {
      ghost var fate := FateOfKey(cfg, svc, key);
      counters := counters.Inc(Read);
      var pk := ToEnhancedPK(key);
      if pk.Failure? {
        assert fate == KeyUnparsable;
        return true;
      }
      if pk.value.None? || pk.value.value.IsError() {
        assert fate == KeyMissing;
        counters := counters.Inc(Missing);
        return false;
      }
      var found := svc.getRecord(pk.value.value);
      if found.Failure? {
        assert fate == ReadThrows;
        return true;
      }
      if found.value.None? {
        assert fate == RowMissing;
        counters := counters.Inc(Missing);
        return false;
      }
      var originRow := found.value.value;
      var record := Record(svc.getTargetPK(originRow), originRow, None);
      var filtered := ShouldFilterRecord(cfg.filter, Some(record));
      if filtered.Failure? {
        assert fate == FilterThrows;
        return true;
      }
      if filtered.value {
        assert fate == Filtered;
        counters := counters.Inc(Skipped);
        return false;
      }
      var ok := PutRecord(record);
      if !ok {
        assert fate == UpsertThrows;
        return true;
      }
      assert fate == Upserted(record);
      counters := counters.Inc(Written);
      if cfg.printStatsAfter == 0 {
        // the modulo below throws
        return true;
      }
      if counters.read % cfg.printStatsAfter == 0 {
        PrintCounts(false);
      }
      aborted := false;
    }

    /** Handles key `k` of `keys` after the keys before it. */
    method ProcessKeyAt(ghost start: CopyState, keys: seq<string>, k: nat) returns (aborted: bool)
      requires k < |keys| && State(false) == RunKeys(cfg, svc, start, keys[..k])
      modifies this
      ensures State(aborted) == RunKeys(cfg, svc, start, keys[..k + 1])
    {
      assert keys[..k + 1][..k] == keys[..k];
      aborted := ProcessKey(keys[k]);
    }

    /** Handles the keys of one batch in order; true when an exception ends
        the run. */
    method ProcessBatch(keys: seq<string>) returns (aborted: bool)
      modifies this
      ensures State(aborted) == RunKeys(cfg, svc, old(State(false)), keys)
    {
      ghost var start := State(false);
      var k := 0;
      assert keys[..0] == [];
      while k < |keys|
        invariant 0 <= k <= |keys|
        invariant State(false) == RunKeys(cfg, svc, start, keys[..k])
      {
        aborted := ProcessKeyAt(start, keys, k);
        if aborted {
          RunKeysAbortedPrefix(cfg, svc, start, keys, k + 1);
          return;
        }
        k := k + 1;
      }
      assert keys[..k] == keys;
      aborted := false;
    }

    /** Copies the keys of every batch, then makes the final report; an
        exception for any key ends the run without it. Returns whether the
        run completed. */
    method GetRowAndInsert(batches: seq<seq<string>>) returns (completed: bool)
      modifies this
      ensures var r := RunBatches(cfg, svc, old(State(false)), batches);
        completed == !r.aborted && State(!completed) == Finish(r)
    {
      ghost var start := State(false);
      var b := 0;
      assert batches[..0] == [];
      while b < |batches|
        invariant 0 <= b <= |batches|
        invariant State(false) == RunBatches(cfg, svc, start, batches[..b])
      {
        assert batches[..b + 1][..b] == batches[..b];
        var aborted := ProcessBatch(batches[b]);
        if aborted {
          RunBatchesAbortedPrefix(cfg, svc, start, batches, b + 1);
          return false;
        }
        b := b + 1;
      }
      assert batches[..b] == batches;
      PrintCounts(true);
      completed := true;
    }
  }

  /** Once a prefix of the batches aborts the run, the rest change nothing. */
  lemma {:induction false} RunBatchesAbortedPrefix(cfg: CopyConfig, svc: CopyServices, s: CopyState,
                                                   batches: seq<seq<string>>, k: nat)
    requires k <= |batches| && RunBatches(cfg, svc, s, batches[..k]).aborted
    ensures RunBatches(cfg, svc, s, batches) == RunBatches(cfg, svc, s, batches[..k])
    decreases |batches| - k
  {
    if k == |batches| {
      assert batches[..k] == batches;
    } else {
      var n := |batches| - 1;
      assert batches[..n][..k] == batches[..k];
      RunBatchesAbortedPrefix(cfg, svc, s, batches[..n], k);
      RunKeysAborted(cfg, svc, RunBatches(cfg, svc, s, batches[..n]), batches[n]);
    }
  }
}
