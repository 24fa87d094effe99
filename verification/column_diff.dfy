/** Per-column comparison of an origin row with its target row: the diff text
    of a record, modelled as the sequence of its entries (the text is empty
    exactly when there is no entry). */
module ColumnDiff {
  import opened Common
  import opened Text

  /** The job-lifetime column mapping of the target table. */
  datatype ColumnConfig = ColumnConfig(
    targetColumnNames: seq<string>,
    constantColumnIndexes: seq<int>,
    explodeMapKeyIndex: int,      // -1 when map explosion is off
    explodeMapValueIndex: int,    // -1 when map explosion is off
    originColumnCount: nat)       // number of origin column types

  /** The table services the comparison calls, as given functions:
      reading a target cell converted to the origin's type (None: the
      conversion throws), the origin index of a target column (negative when
      it has none) and the value comparison. */
  datatype ColumnServices = ColumnServices(
    getAndConvertData: (nat, Row) -> Option<Value>,
    getCorrespondingIndex: nat -> int,
    valuesDiffer: (Value, Value) -> bool)

  /** One entry of the diff text: a value difference, or an exception raised
      while comparing one column (originIndex is -2 when it was raised before
      the origin index was looked up). */
  datatype DiffEntry =
    | ValueMismatch(column: string, origin: Value, target: Value)
    | ColumnException(column: string, targetIndex: nat, originIndex: int)

  /** A column whose upper-cased name contains TTL or WRITETIME. */
  predicate IsTtlOrWritetimeName(name: string)
  {
    Contains(ToUpper(name), "TTL") || Contains(ToUpper(name), "WRITETIME")
  }

  /** The value to compare target column `i` against: the origin cell it is
      mapped to, or the exploded map key or value stored on the key; None when
      reading it throws (no such origin cell, or no mapping at all). */
  function OriginValue(cfg: ColumnConfig, svc: ColumnServices, pk: PrimaryKey, originRow: Row, i: nat): (r: Option<Value>)
    ensures svc.getCorrespondingIndex(i) >= 0 ==>
      (r.Some? <==> svc.getCorrespondingIndex(i) < |originRow|)
      && (r.Some? ==> r.value == originRow[svc.getCorrespondingIndex(i)])
    ensures svc.getCorrespondingIndex(i) < 0 && i == cfg.explodeMapKeyIndex ==> r == Some(pk.explodeMapKey)
    ensures svc.getCorrespondingIndex(i) < 0 && i != cfg.explodeMapKeyIndex && i == cfg.explodeMapValueIndex
      ==> r == Some(pk.explodeMapValue)
    ensures svc.getCorrespondingIndex(i) < 0 && i != cfg.explodeMapKeyIndex && i != cfg.explodeMapValueIndex
      ==> r.None?
  {
    var oi := svc.getCorrespondingIndex(i);
    if oi >= 0 then (if oi < |originRow| then Some(originRow[oi]) else None)
    else if i == cfg.explodeMapKeyIndex then Some(pk.explodeMapKey)
    else if i == cfg.explodeMapValueIndex then Some(pk.explodeMapValue)
    else None
  }

  /** The diff entry, if any, that target column `i` contributes. */
  function CompareColumn(cfg: ColumnConfig, svc: ColumnServices, pk: PrimaryKey, originRow: Row, targetRow: Row, i: nat)
    : (r: Option<DiffEntry>)
    requires i < |cfg.targetColumnNames|
    // constant columns are never compared
    ensures i in cfg.constantColumnIndexes ==> r.None?
    // a failing conversion or a column mapped nowhere becomes an exception entry
    ensures i !in cfg.constantColumnIndexes && svc.getAndConvertData(i, targetRow).None?
      ==> r == Some(ColumnException(cfg.targetColumnNames[i], i, -2))
    ensures i !in cfg.constantColumnIndexes && svc.getAndConvertData(i, targetRow).Some?
      && OriginValue(cfg, svc, pk, originRow, i).None?
      ==> r == Some(ColumnException(cfg.targetColumnNames[i], i, svc.getCorrespondingIndex(i)))
    // otherwise a TTL or WRITETIME column, a null origin value or equal values add nothing
    ensures r.None? <==>
      i in cfg.constantColumnIndexes
      || (svc.getAndConvertData(i, targetRow).Some? && OriginValue(cfg, svc, pk, originRow, i).Some?
          && (IsTtlOrWritetimeName(cfg.targetColumnNames[i])
              || OriginValue(cfg, svc, pk, originRow, i).value == Null
              || !svc.valuesDiffer(OriginValue(cfg, svc, pk, originRow, i).value, svc.getAndConvertData(i, targetRow).value)))
    // a reported difference is a real one, read from an origin column
    ensures r.Some? && r.value.ValueMismatch? ==>
      && !IsTtlOrWritetimeName(cfg.targetColumnNames[i])
      && 0 <= svc.getCorrespondingIndex(i) < cfg.originColumnCount
      && r.value == ValueMismatch(cfg.targetColumnNames[i], OriginValue(cfg, svc, pk, originRow, i).value,
                                  svc.getAndConvertData(i, targetRow).value)
      && r.value.origin != Null && svc.valuesDiffer(r.value.origin, r.value.target)
  {
    var name := cfg.targetColumnNames[i];
    if i in cfg.constantColumnIndexes then None
    else match svc.getAndConvertData(i, targetRow)
      case None => Some(ColumnException(name, i, -2))
      case Some(target) =>
        var oi := svc.getCorrespondingIndex(i);
        match OriginValue(cfg, svc, pk, originRow, i)
        case None => Some(ColumnException(name, i, oi))
        case Some(origin) =>
          if IsTtlOrWritetimeName(name) then None
          else if origin != Null && svc.valuesDiffer(origin, target) then
            // formatting the difference reads the origin column's type, which
            // throws for an explode-map column (no origin index)
            if 0 <= oi < cfg.originColumnCount then Some(ValueMismatch(name, origin, target))
            else Some(ColumnException(name, i, oi))
          else None
  }

  /** The entries contributed by target columns 0 .. n-1, in column order. */
  function Entries(cfg: ColumnConfig, svc: ColumnServices, pk: PrimaryKey, originRow: Row, targetRow: Row, n: nat)
    : seq<DiffEntry>
    requires n <= |cfg.targetColumnNames|
  {
    if n == 0 then []
    else
      var prefix := Entries(cfg, svc, pk, originRow, targetRow, n - 1);
      match CompareColumn(cfg, svc, pk, originRow, targetRow, n - 1)
      case None => prefix
      case Some(e) => prefix + [e]
  }

  /** An entry is in the diff text iff some column contributed it. */
  lemma {:induction false} EntriesExactlyFromColumns(cfg: ColumnConfig, svc: ColumnServices, pk: PrimaryKey,
                                                     originRow: Row, targetRow: Row, n: nat, e: DiffEntry)
    requires n <= |cfg.targetColumnNames|
    ensures e in Entries(cfg, svc, pk, originRow, targetRow, n) <==>
      exists i :: 0 <= i < n && CompareColumn(cfg, svc, pk, originRow, targetRow, i) == Some(e)
  {
    if n > 0 {
      EntriesExactlyFromColumns(cfg, svc, pk, originRow, targetRow, n - 1, e);
      if CompareColumn(cfg, svc, pk, originRow, targetRow, n - 1) == Some(e) {
        assert e in Entries(cfg, svc, pk, originRow, targetRow, n);
      }
    }
  }

  /** The diff text is empty iff no column contributes an entry, and it never
      has more entries than there are columns. */
  lemma {:induction false} EntriesEmptyIffNoColumn(cfg: ColumnConfig, svc: ColumnServices, pk: PrimaryKey,
                                                  originRow: Row, targetRow: Row, n: nat)
    requires n <= |cfg.targetColumnNames|
    ensures |Entries(cfg, svc, pk, originRow, targetRow, n)| <= n
    ensures Entries(cfg, svc, pk, originRow, targetRow, n) == [] <==>
      forall i :: 0 <= i < n ==> CompareColumn(cfg, svc, pk, originRow, targetRow, i).None?
  {
    if n > 0 {
      EntriesEmptyIffNoColumn(cfg, svc, pk, originRow, targetRow, n - 1);
    }
  }

  /** The diff text of a record whose target row was found: the entries of
      all target columns. */
  function IsDifferent(cfg: ColumnConfig, svc: ColumnServices, pk: PrimaryKey, originRow: Row, targetRow: Row)
    : seq<DiffEntry>
  {
    Entries(cfg, svc, pk, originRow, targetRow, |cfg.targetColumnNames|)
  }

  /** The diff text is empty iff every column is excluded or equal, and has
      at most one entry per column. */
  lemma IsDifferentEmptyIffAllEqual(cfg: ColumnConfig, svc: ColumnServices, pk: PrimaryKey, originRow: Row, targetRow: Row)
    ensures |IsDifferent(cfg, svc, pk, originRow, targetRow)| <= |cfg.targetColumnNames|
    ensures IsDifferent(cfg, svc, pk, originRow, targetRow) == [] <==>
      forall i :: 0 <= i < |cfg.targetColumnNames| ==> CompareColumn(cfg, svc, pk, originRow, targetRow, i).None?
  {
    EntriesEmptyIffNoColumn(cfg, svc, pk, originRow, targetRow, |cfg.targetColumnNames|);
  }

  /** The aliases the origin select gives its TTL and WRITETIME projections
      are always excluded from comparison, whatever the column's own name. */
  lemma ProjectionAliasesExcluded(column: string)
    ensures IsTtlOrWritetimeName("ttl_" + column)
    ensures IsTtlOrWritetimeName("writetime_" + column)
  {
    var t := ToUpper("ttl_" + column);
    assert t[0..3] == "TTL";
    assert OccursAt(t, "TTL", 0);
    var w := ToUpper("writetime_" + column);
    assert w[0..9] == "WRITETIME";
    assert OccursAt(w, "WRITETIME", 0);
  }
}
