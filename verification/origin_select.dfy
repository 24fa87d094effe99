/** The origin select statement: which origin records are filtered out, the
    largest write timestamp and TTL of a row, and the assembly of the select
    text with its TTL and WRITETIME projections. */
module OriginSelect {
  import opened Common
  import opened Text

  /** A configured single-column equality filter: the origin column index
      read as text and the value that removes a record. */
  datatype ColumnFilter = ColumnFilter(index: nat, value: string)

  /** A configured write-timestamp window; both bounds are inclusive. */
  datatype TimestampWindow = TimestampWindow(min: int, max: int)

  datatype FilterConfig = FilterConfig(column: Option<ColumnFilter>, writeTimestamp: Option<TimestampWindow>)

  /** The CQL type codes of the projections the statement adds. */
  datatype ColumnType = ColumnType(code: string)
  const IntType := ColumnType("1")
  const BigintType := ColumnType("2")

  /** A record is valid unless its key is in ERROR state; a WARNING key is
      valid. There is no record to judge when it is absent (null), which is an
      error. */
  function IsRecordValid(record: Option<Record>): (r: Result<bool>)
    ensures r.Failure? <==> record.None?
    ensures record.Some? ==> (r.Success? && (r.value <==> record.value.pk.state != Error))
    ensures record.Some? && record.value.pk.state in {Ok, Warning} ==> r == Success(true)
  {
    if record.None? then Failure("Record is null")
    else if record.value.pk.IsError() then Success(false)
    else Success(true)
  }

  /** The filter column of `row` holds a text value (a null or non-text cell,
      or a missing index, makes reading it as a string fail). */
  predicate TextAt(row: Row, i: nat)
  {
    i < |row| && row[i].Text?
  }

  /** Whether the column filter removes a record with origin row `row`: its
      trimmed text equals the configured value, ignoring case. */
  function ColumnFilterMatches(cf: ColumnFilter, row: Row): (r: Result<bool>)
    ensures r.Failure? <==> !TextAt(row, cf.index)
    ensures r.Success? ==> (r.value <==> EqualsIgnoreCase(Trim(row[cf.index].s), cf.value))
  {
    if TextAt(row, cf.index) then Success(EqualsIgnoreCase(Trim(row[cf.index].s), cf.value))
    else Failure("filter column value cannot be read as text")
  }

  /** A write timestamp outside the inclusive window. */
  predicate OutsideWindow(w: TimestampWindow, t: int)
  {
    t < w.min || t > w.max
  }

  /** The column filter is on and the record's filter column cannot be read
      as text. */
  predicate ColumnUnreadable(filter: FilterConfig, rec: Record)
  {
    filter.column.Some? && !TextAt(rec.originRow, filter.column.value.index)
  }

  /** The column filter is on and the record's trimmed filter column equals
      the configured value, ignoring case. */
  predicate ColumnRemoves(filter: FilterConfig, rec: Record)
  {
    && filter.column.Some? && TextAt(rec.originRow, filter.column.value.index)
    && EqualsIgnoreCase(Trim(rec.originRow[filter.column.value.index].s), filter.column.value.value)
  }

  /** The timestamp filter is on and the record's key has no write timestamp
      (unboxing the null timestamp throws). */
  predicate TimestampUnknown(filter: FilterConfig, rec: Record)
  {
    filter.writeTimestamp.Some? && rec.pk.writeTimestamp.None?
  }

  /** Whether a record is dropped before it is copied or compared. */
  function ShouldFilterRecord(filter: FilterConfig, record: Option<Record>): (r: Result<bool>)
    // an absent or invalid record is always filtered
    ensures record.None? ==> r == Success(true)
    ensures record.Some? && record.value.pk.IsError() ==> r == Success(true)
    // a valid record fails on an unreadable filter column, or, when the
    // column filter does not remove it, on a missing write timestamp
    ensures r.Failure? <==>
      && record.Some? && !record.value.pk.IsError()
      && (ColumnUnreadable(filter, record.value)
          || (!ColumnRemoves(filter, record.value) && TimestampUnknown(filter, record.value)))
    // a valid record whose filter column matches is filtered
    ensures record.Some? && !record.value.pk.IsError() && ColumnRemoves(filter, record.value) ==> r == Success(true)
    // a valid record is kept iff no check fires
    ensures r == Success(false) <==>
      && record.Some? && !record.value.pk.IsError()
      && (filter.column.Some? ==>
            TextAt(record.value.originRow, filter.column.value.index) && !ColumnRemoves(filter, record.value))
      && (filter.writeTimestamp.Some? ==>
            && record.value.pk.writeTimestamp.Some?
            && !OutsideWindow(filter.writeTimestamp.value, record.value.pk.writeTimestamp.value))
  {
    if record.None? || !IsRecordValid(record).value then Success(true)
    else
      var rec := record.value;
      var columnCheck := if filter.column.Some? then ColumnFilterMatches(filter.column.value, rec.originRow) else Success(false);
      if columnCheck.Failure? then columnCheck
      else if columnCheck.value then Success(true)
      else if filter.writeTimestamp.None? then Success(false)
      else match rec.pk.writeTimestamp
        case None => Failure("write timestamp is null")
        case Some(t) => Success(OutsideWindow(filter.writeTimestamp.value, t))
  }

  /** The largest of the values `get` reads at `indexes`, none when there are
      no indexes. */
  function LargestOf(indexes: seq<nat>, get: nat -> int): (r: Option<int>)
    ensures r.None? <==> indexes == []
    ensures r.Some? ==> forall i :: 0 <= i < |indexes| ==> get(indexes[i]) <= r.value
    ensures r.Some? ==> exists i :: 0 <= i < |indexes| && get(indexes[i]) == r.value
  {
    if indexes == [] then None
    else
      var last := get(indexes[|indexes| - 1]);
      match LargestOf(indexes[..|indexes| - 1], get)
      case None => Some(last)
      case Some(m) => Some(if m < last then last else m)
  }

  /** The projection text of one TTL or WRITETIME column. */
  function Projection(fn: string, alias: string, name: string): string
  {
    "," + fn + "(" + name + ") as " + alias + name
  }

  predicate AllBelow(cols: seq<int>, n: nat)
  {
    forall j :: 0 <= j < |cols| ==> 0 <= cols[j] < n
  }

  /** The projections of the columns `cols` of `names`, in order. */
  function Projections(fn: string, alias: string, cols: seq<int>, names: seq<string>): string
    requires AllBelow(cols, |names|)
  {
    if cols == [] then ""
    else Projections(fn, alias, cols[..|cols| - 1], names) + Projection(fn, alias, names[cols[|cols| - 1]])
  }

  /** Appending names does not change the projections of columns already present. */
  lemma {:induction false} ProjectionsExtend(fn: string, alias: string, cols: seq<int>, names: seq<string>, more: seq<string>)
    requires AllBelow(cols, |names|)
    ensures AllBelow(cols, |names + more|)
    ensures Projections(fn, alias, cols, names + more) == Projections(fn, alias, cols, names)
  {
    if cols != [] {
      ProjectionsExtend(fn, alias, cols[..|cols| - 1], names, more);
      assert (names + more)[cols[|cols| - 1]] == names[cols[|cols| - 1]];
    }
  }

  /** The positions from, from + 1, ..., from + count - 1. */
  function Positions(from: nat, count: nat): (r: seq<nat>)
    ensures |r| == count && forall j :: 0 <= j < count ==> r[j] == from + j
  {
    seq(count, j requires 0 <= j < count => from + j)
  }

  /** Every column index of `cols` names a result column by the time its
      projection is added: the j-th one is below `n + j`, where `n` is the
      number of result columns before the first is added. */
  predicate Reachable(cols: seq<int>, n: nat)
  {
    forall j :: 0 <= j < |cols| ==> 0 <= cols[j] < n + j
  }

  lemma ReachableOneMore(cols: seq<int>, n: nat, i: nat)
    requires i < |cols| && Reachable(cols[..i], n) && 0 <= cols[i] < n + i
    ensures Reachable(cols[..i + 1], n)
  {
    assert forall j :: 0 <= j < i ==> cols[..i + 1][j] == cols[..i][j];
  }

  lemma ReachablePrefix(cols: seq<int>, n: nat, i: nat)
    requires i <= |cols| && Reachable(cols, n)
    ensures Reachable(cols[..i], n)
  {
    assert forall j :: 0 <= j < i ==> cols[..i][j] == cols[j];
  }

  /** `names` with the result column `alias` + name appended for each column
      of `cols` in turn; a column may name one appended before it. */
  function Extended(names: seq<string>, alias: string, cols: seq<int>): (r: seq<string>)
    requires Reachable(cols, |names|)
    ensures |r| == |names| + |cols|
  {
    if cols == [] then names
    else
      ReachablePrefix(cols, |names|, |cols| - 1);
      var e := Extended(names, alias, cols[..|cols| - 1]);
      e + [alias + e[cols[|cols| - 1]]]
  }

  /** Extending keeps the names there were and appends, at position
      `|names| + j`, `alias` followed by the name column `cols[j]` has in the
      result; every column of `cols` is then a result column. */
  lemma {:induction false} ExtendedNames(names: seq<string>, alias: string, cols: seq<int>)
    requires Reachable(cols, |names|)
    ensures var r := Extended(names, alias, cols);
      && r[..|names|] == names
      && (forall j :: 0 <= j < |cols| ==> r[|names| + j] == alias + r[cols[j]])
      && AllBelow(cols, |r|)
  {
    if cols != [] {
      var k := |cols| - 1;
      ReachablePrefix(cols, |names|, k);
      ExtendedNames(names, alias, cols[..k]);
      var e := Extended(names, alias, cols[..k]);
      var r := Extended(names, alias, cols);
      assert r == e + [alias + e[cols[k]]];
      forall j | 0 <= j < |cols|
        ensures r[|names| + j] == alias + r[cols[j]]
      {
        if j < k {
          assert cols[..k][j] == cols[j];
        }
      }
    }
  }

  /** Extending by more columns keeps the names a shorter extension gave. */
  lemma ExtendedOneMore(names: seq<string>, alias: string, cols: seq<int>, i: nat)
    requires i < |cols| && Reachable(cols[..i + 1], |names|)
    ensures Reachable(cols[..i], |names|)
    ensures Extended(names, alias, cols[..i + 1])
         == Extended(names, alias, cols[..i]) + [alias + Extended(names, alias, cols[..i])[cols[i]]]
  {
    assert cols[..i + 1][..i] == cols[..i];
    ReachablePrefix(cols[..i + 1], |names|, i);
  }

  /** Extending by the TTL columns and then by the WRITETIME columns keeps
      the names there were, puts `ttl_` + the name of `ttlCols[j]` at
      position `|names| + j`, and `writetime_` + the name of
      `writeTimeStampCols[j]` at position `|mid| + j`, right after the TTL
      columns. */
  lemma ProjectedNames(names: seq<string>, ttlCols: seq<int>, writeTimeStampCols: seq<int>)
    requires Reachable(ttlCols, |names|) && Reachable(writeTimeStampCols, |names| + |ttlCols|)
    ensures var mid := Extended(names, "ttl_", ttlCols);
      var r := Extended(mid, "writetime_", writeTimeStampCols);
      && |mid| == |names| + |ttlCols| && |r| == |mid| + |writeTimeStampCols|
      && r[..|names|] == names
      && (forall j :: 0 <= j < |ttlCols| ==> r[|names| + j] == "ttl_" + r[ttlCols[j]])
      && (forall j :: 0 <= j < |writeTimeStampCols| ==> r[|mid| + j] == "writetime_" + r[writeTimeStampCols[j]])
  {
    var mid := Extended(names, "ttl_", ttlCols);
    var r := Extended(mid, "writetime_", writeTimeStampCols);
    ExtendedNames(names, "ttl_", ttlCols);
    ExtendedNames(mid, "writetime_", writeTimeStampCols);
    KeptPrefix(names, mid, r);
  }

  /** What `mid` extends and `r` extends, `r` extends too, position by position. */
  lemma KeptPrefix(names: seq<string>, mid: seq<string>, r: seq<string>)
    requires |names| <= |mid| <= |r| && mid[..|names|] == names && r[..|mid|] == mid
    ensures r[..|names|] == names
    ensures forall i :: 0 <= i < |mid| ==> r[i] == mid[i]
  {
    assert forall i :: 0 <= i < |mid| ==> r[..|mid|][i] == r[i];
  }

  /** Projecting one more column, after names were appended: the earlier
      projections are unchanged and the new one follows them. */
  lemma ProjectionsOneMore(fn: string, alias: string, cols: seq<int>, i: nat, names: seq<string>, more: seq<string>)
    requires i < |cols| && AllBelow(cols[..i], |names|) && 0 <= cols[i] < |names|
    ensures AllBelow(cols[..i + 1], |names + more|)
    ensures Projections(fn, alias, cols[..i + 1], names + more)
         == Projections(fn, alias, cols[..i], names) + Projection(fn, alias, names[cols[i]])
  {
    assert cols[..i + 1][..i] == cols[..i];
    ProjectionsExtend(fn, alias, cols[..i + 1], names, more);
  }

  /** `n` copies of `x`. */
  function Copies<T>(x: T, n: nat): (r: seq<T>)
    ensures |r| == n && forall j :: 0 <= j < n ==> r[j] == x
  {
    seq(n, _ => x)
  }

  lemma CopiesOneMore<T>(x: T, n: nat)
    ensures Copies(x, n + 1) == Copies(x, n) + [x]
  {
  }

  lemma PositionsOneMore(from: nat, n: nat)
    ensures Positions(from, n + 1) == Positions(from, n) + [from + n]
  {
  }

  /** The select statement over the origin table, with the result columns and
      types it reads and the positions of its TTL and WRITETIME projections. */
  class OriginSelectStatement {
    var resultColumns: seq<string>
    var resultTypes: seq<ColumnType>
    var writeTimestampIndexes: seq<nat>
    var ttlIndexes: seq<nat>
    var statement: string

    /** Every tracked index names a result column. */
    ghost predicate Valid()
      reads this
    {
      AllBelow(ttlIndexes, |resultColumns|) && AllBelow(writeTimestampIndexes, |resultColumns|)
    }

    constructor (columnNames: seq<string>, columnTypes: seq<ColumnType>)
      ensures Valid()
      ensures resultColumns == columnNames && resultTypes == columnTypes
      ensures ttlIndexes == [] && writeTimestampIndexes == [] && statement == ""
    {
      resultColumns := columnNames;
      resultTypes := columnTypes;
      ttlIndexes := [];
      writeTimestampIndexes := [];
      statement := "";
    }

    /** The largest write timestamp of `row` over the tracked WRITETIME
        projections (`row` reads a cell as a long), none when none is tracked. */
    function GetLargestWriteTimeStamp(row: nat -> int): (r: Option<int>)
      reads this
      ensures r.None? <==> writeTimestampIndexes == []
      ensures r.Some? ==> forall i :: 0 <= i < |writeTimestampIndexes| ==> row(writeTimestampIndexes[i]) <= r.value
      ensures r.Some? ==> exists i :: 0 <= i < |writeTimestampIndexes| && row(writeTimestampIndexes[i]) == r.value
    {
      LargestOf(writeTimestampIndexes, row)
    }

    /** The largest TTL of `row` over the tracked TTL projections (`row` reads
        a cell as an int), none when none is tracked. */
    function GetLargestTTL(row: nat -> int): (r: Option<int>)
      reads this
      ensures r.None? <==> ttlIndexes == []
      ensures r.Some? ==> forall i :: 0 <= i < |ttlIndexes| ==> row(ttlIndexes[i]) <= r.value
      ensures r.Some? ==> exists i :: 0 <= i < |ttlIndexes| && row(ttlIndexes[i]) == r.value
    {
      LargestOf(ttlIndexes, row)
    }

    /** The state after the TTL projections of `ttlCols` and then the
        WRITETIME projections of `writeTimeStampCols` were appended to result
        columns `names0`, types `types0` and position lists `ttl0`, `wt0`:
        one `ttl_` column of type int per TTL column, then one `writetime_`
        column of type bigint per WRITETIME column, each recorded at its
        position. */
    ghost predicate Projected(names0: seq<string>, types0: seq<ColumnType>, ttl0: seq<nat>, wt0: seq<nat>,
                              ttlCols: seq<int>, writeTimeStampCols: seq<int>)
      reads this
    {
      var n0, k := |names0|, |ttlCols|;
      && Reachable(ttlCols, n0) && Reachable(writeTimeStampCols, n0 + k)
      && resultColumns == Extended(Extended(names0, "ttl_", ttlCols), "writetime_", writeTimeStampCols)
      && resultTypes == types0 + Copies(IntType, k) + Copies(BigintType, |writeTimeStampCols|)
      && ttlIndexes == ttl0 + Positions(n0, k)
      && writeTimestampIndexes == wt0 + Positions(n0 + k, |writeTimeStampCols|)
      && AllBelow(ttlCols, |resultColumns|) && AllBelow(writeTimeStampCols, |resultColumns|)
    }

    /** After the projections were appended, each new TTL or WRITETIME
        position holds the projection of its column. */
    lemma ProjectedPositions(names0: seq<string>, types0: seq<ColumnType>, ttl0: seq<nat>, wt0: seq<nat>,
                             ttlCols: seq<int>, writeTimeStampCols: seq<int>)
      requires Projected(names0, types0, ttl0, wt0, ttlCols, writeTimeStampCols)
      ensures |ttlIndexes| == |ttl0| + |ttlCols| && |writeTimestampIndexes| == |wt0| + |writeTimeStampCols|
      ensures forall j :: 0 <= j < |ttlCols| ==>
        ttlIndexes[|ttl0| + j] < |resultColumns|
        && resultColumns[ttlIndexes[|ttl0| + j]] == "ttl_" + resultColumns[ttlCols[j]]
      ensures forall j :: 0 <= j < |writeTimeStampCols| ==>
        writeTimestampIndexes[|wt0| + j] < |resultColumns|
        && resultColumns[writeTimestampIndexes[|wt0| + j]] == "writetime_" + resultColumns[writeTimeStampCols[j]]
    {
      ProjectedNames(names0, ttlCols, writeTimeStampCols);
      var mid := Extended(names0, "ttl_", ttlCols);
      forall i | |ttl0| <= i < |ttlIndexes|
        ensures ttlIndexes[i] == |names0| + (i - |ttl0|)
      {
        assert ttlIndexes[i] == Positions(|names0|, |ttlCols|)[i - |ttl0|];
      }
      forall i | |wt0| <= i < |writeTimestampIndexes|
        ensures writeTimestampIndexes[i] == |mid| + (i - |wt0|)
      {
        assert writeTimestampIndexes[i] == Positions(|names0| + |ttlCols|, |writeTimeStampCols|)[i - |wt0|];
      }
    }

    /** Appends one TTL projection per column of `ttlCols`, then one WRITETIME
        projection per column of `writeTimeStampCols`, to the result columns
        and types, records their positions and returns their projection text.
        A negative column index, or one beyond the result columns read so
        far, fails, leaving the projections appended before it. */
    method TtlAndWritetimeCols(ttlCols: seq<int>, writeTimeStampCols: seq<int>) returns (fragment: Result<string>)
      requires Valid()
      modifies this
      ensures Valid()
      ensures statement == old(statement)
      // columns and types grow in lockstep; what was there is kept
      ensures |resultColumns| - |old(resultColumns)| == |resultTypes| - |old(resultTypes)| >= 0
      ensures resultColumns[..|old(resultColumns)|] == old(resultColumns)
      ensures resultTypes[..|old(resultTypes)|] == old(resultTypes)
      // it fails exactly when a column index is not yet a result column
      ensures fragment.Success? <==>
        Reachable(ttlCols, |old(resultColumns)|) && Reachable(writeTimeStampCols, |old(resultColumns)| + |ttlCols|)
      ensures fragment.Success? ==>
        && Projected(old(resultColumns), old(resultTypes), old(ttlIndexes), old(writeTimestampIndexes),
                     ttlCols, writeTimeStampCols)
        && fragment.value == Projections("TTL", "ttl_", ttlCols, resultColumns)
                             + Projections("WRITETIME", "writetime_", writeTimeStampCols, resultColumns)
    {
      ghost var n0 := |resultColumns|;
      var ttlText := AppendProjections(ttlCols, "TTL", "ttl_", IntType, true);
      if ttlText.Failure? {
        return ttlText;
      }
      ghost var afterTtl := resultColumns;
      var writeText := AppendProjections(writeTimeStampCols, "WRITETIME", "writetime_", BigintType, false);
      if writeText.Failure? {
        return writeText;
      }
      ExtendedNames(afterTtl, "writetime_", writeTimeStampCols);
      assert resultColumns == afterTtl + resultColumns[|afterTtl|..];
      ProjectionsExtend("TTL", "ttl_", ttlCols, afterTtl, resultColumns[|afterTtl|..]);
      AppendAssoc(old(resultTypes), Copies(IntType, |ttlCols|), Copies(BigintType, |writeTimeStampCols|));
      fragment := Success(ttlText.value + writeText.value);
    }

    /** Appends, for each column of `cols`, the result column `alias` + its
        name with type `ty`, and records its position among the TTL indexes
        (`toTtl`) or the write-timestamp indexes; returns the projection text.
        Fails at the first column index that is not yet a result column. */
    method AppendProjections(cols: seq<int>, fn: string, alias: string, ty: ColumnType, toTtl: bool)
      returns (text: Result<string>)
      requires Valid()
      modifies this
      ensures Valid() && statement == old(statement)
      ensures toTtl ==> writeTimestampIndexes == old(writeTimestampIndexes)
      ensures !toTtl ==> ttlIndexes == old(ttlIndexes)
      ensures |resultColumns| - |old(resultColumns)| == |resultTypes| - |old(resultTypes)| >= 0
      ensures resultColumns[..|old(resultColumns)|] == old(resultColumns)
      ensures resultTypes[..|old(resultTypes)|] == old(resultTypes)
      ensures text.Success? <==> Reachable(cols, |old(resultColumns)|)
      ensures text.Success? ==>
        var n0 := |old(resultColumns)|;
        && resultColumns == Extended(old(resultColumns), alias, cols)
        && resultTypes == old(resultTypes) + Copies(ty, |cols|)
        && (toTtl ==> ttlIndexes == old(ttlIndexes) + Positions(n0, |cols|))
        && (!toTtl ==> writeTimestampIndexes == old(writeTimestampIndexes) + Positions(n0, |cols|))
        && AllBelow(cols, |resultColumns|)
        && text.value == Projections(fn, alias, cols, resultColumns)
    {
      ghost var names0, types0, ttl0, wt0 := resultColumns, resultTypes, ttlIndexes, writeTimestampIndexes;
      var acc := "";
      var i := 0;
      assert cols[..0] == [];
      assert resultTypes + Copies(ty, 0) == resultTypes;
      while i < |cols|
        invariant 0 <= i <= |cols|
        invariant Valid() && statement == old(statement)
        invariant Progress(names0, types0, ttl0, wt0, cols, i, fn, alias, ty, toTtl, acc)
      {
        ExtendedNames(names0, alias, cols[..i]);
        if cols[i] < 0 || cols[i] >= |resultColumns| {
          return Failure(fn + " column index out of range");
        }
        acc := AppendNext(names0, types0, ttl0, wt0, cols, i, fn, alias, ty, toTtl, acc);
        i := i + 1;
      }
      assert cols[..i] == cols;
      ExtendedNames(names0, alias, cols);
      text := Success(acc);
    }

    /** The state after the projections of the first `i` columns of `cols`
        were appended to result columns `names0`, types `types0` and position
        lists `ttl0` and `wt0`, with projection text `acc`. */
    ghost predicate Progress(names0: seq<string>, types0: seq<ColumnType>, ttl0: seq<nat>, wt0: seq<nat>,
                             cols: seq<int>, i: nat, fn: string, alias: string, ty: ColumnType, toTtl: bool, acc: string)
      reads this
    {
      && i <= |cols|
      && Reachable(cols[..i], |names0|)
      && resultColumns == Extended(names0, alias, cols[..i])
      && resultTypes == types0 + Copies(ty, i)
      && ttlIndexes == (if toTtl then ttl0 + Positions(|names0|, i) else ttl0)
      && writeTimestampIndexes == (if toTtl then wt0 else wt0 + Positions(|names0|, i))
      && AllBelow(cols[..i], |resultColumns|)
      && acc == Projections(fn, alias, cols[..i], resultColumns)
    }

    /** Appends the projection of column `cols[i]`, which is a result column. */
    method AppendNext(ghost names0: seq<string>, ghost types0: seq<ColumnType>, ghost ttl0: seq<nat>, ghost wt0: seq<nat>,
                      cols: seq<int>, i: nat, fn: string, alias: string, ty: ColumnType, toTtl: bool, acc: string)
      returns (acc': string)
      requires Valid() && i < |cols| && 0 <= cols[i] < |resultColumns|
      requires Progress(names0, types0, ttl0, wt0, cols, i, fn, alias, ty, toTtl, acc)
      modifies this
      ensures Valid() && statement == old(statement)
      ensures Progress(names0, types0, ttl0, wt0, cols, i + 1, fn, alias, ty, toTtl, acc')
    {
      var col := cols[i];
      ReachableOneMore(cols, |names0|, i);
      ProjectionsOneMore(fn, alias, cols, i, resultColumns, [alias + resultColumns[col]]);
      acc' := acc + Projection(fn, alias, resultColumns[col]);
      AppendProjection(col, alias, ty, toTtl);
      ExtendedOneMore(names0, alias, cols, i);
      CopiesOneMore(ty, i);
      AppendAssoc(types0, Copies(ty, i), [ty]);
      PositionsOneMore(|names0|, i);
      AppendAssoc(if toTtl then ttl0 else wt0, Positions(|names0|, i), [|names0| + i]);
    }

    /** Appends the result column `alias` + the name of column `col`, with
        type `ty`, and records its position. */
    method AppendProjection(col: nat, alias: string, ty: ColumnType, toTtl: bool)
      requires Valid() && col < |resultColumns|
      modifies this
      ensures Valid() && statement == old(statement)
      ensures resultColumns == old(resultColumns) + [alias + old(resultColumns)[col]]
      ensures resultTypes == old(resultTypes) + [ty]
      ensures toTtl ==> ttlIndexes == old(ttlIndexes) + [|old(resultColumns)|]
                        && writeTimestampIndexes == old(writeTimestampIndexes)
      ensures !toTtl ==> writeTimestampIndexes == old(writeTimestampIndexes) + [|old(resultColumns)|]
                         && ttlIndexes == old(ttlIndexes)
    {
      resultColumns := resultColumns + [alias + resultColumns[col]];
      resultTypes := resultTypes + [ty];
      if toTtl {
        ttlIndexes := ttlIndexes + [|resultColumns| - 1];
      } else {
        writeTimestampIndexes := writeTimestampIndexes + [|resultColumns| - 1];
      }
    }

    /** Builds and stores the select text: the configured column list, the
        TTL and WRITETIME projections, the table and the where clause of the
        concrete statement. A failure of the projections leaves no statement. */
    method BuildStatement(columnNamesText: string, keyspaceTable: string, whereBinds: string,
                          ttlCols: seq<int>, writeTimeStampCols: seq<int>) returns (r: Result<string>)
      requires Valid()
      modifies this
      ensures Valid()
      ensures |resultColumns| - |old(resultColumns)| == |resultTypes| - |old(resultTypes)| >= 0
      ensures resultColumns[..|old(resultColumns)|] == old(resultColumns)
      ensures resultTypes[..|old(resultTypes)|] == old(resultTypes)
      // it fails exactly when a column index is not yet a result column
      ensures r.Success? <==>
        Reachable(ttlCols, |old(resultColumns)|) && Reachable(writeTimeStampCols, |old(resultColumns)| + |ttlCols|)
      ensures r.Failure? ==> statement == old(statement)
      ensures r.Success? ==>
        && Projected(old(resultColumns), old(resultTypes), old(ttlIndexes), old(writeTimestampIndexes),
                     ttlCols, writeTimeStampCols)
        // each new TTL or WRITETIME position holds the projection of its column
        && (forall j :: 0 <= j < |ttlCols| ==>
              resultColumns[ttlIndexes[|old(ttlIndexes)| + j]] == "ttl_" + resultColumns[ttlCols[j]])
        && (forall j :: 0 <= j < |writeTimeStampCols| ==>
              resultColumns[writeTimestampIndexes[|old(writeTimestampIndexes)| + j]]
              == "writetime_" + resultColumns[writeTimeStampCols[j]])
        && statement == r.value
        && r.value == "SELECT " + columnNamesText
                      + Projections("TTL", "ttl_", ttlCols, resultColumns)
                      + Projections("WRITETIME", "writetime_", writeTimeStampCols, resultColumns)
                      + " FROM " + keyspaceTable + " WHERE " + whereBinds
    {
      ghost var names0, ttl0, wt0 := resultColumns, ttlIndexes, writeTimestampIndexes;
      var fragment := TtlAndWritetimeCols(ttlCols, writeTimeStampCols);
      if fragment.Failure? {
        return Failure(fragment.error);
      }
      ProjectedPositions(names0, old(resultTypes), ttl0, wt0, ttlCols, writeTimeStampCols);
      statement := "SELECT " + columnNamesText + fragment.value + " FROM " + keyspaceTable + " WHERE " + whereBinds;
      r := Success(statement);
    }
  }
}
