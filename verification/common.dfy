/** Shared data model of the reconciliation engine: cell values, primary keys,
    records and the progress counters. */
module Common {

  datatype Option<+T> = None | Some(value: T)

  /** Success or failure; a Failure stands for an exception raised by the
      modelled code (its message is kept only for the reader). */
  datatype Result<+T> = Success(value: T) | Failure(error: string)

  /** An opaque cell value of a row; Null is a CQL null. */
  datatype Value = Null | Text(s: string) | Number(n: int)

  /** A row of a result set: its cells by column index. */
  type Row = seq<Value>

  /** Validity state of a primary key. */
  datatype KeyState = Ok | Warning | Error

  /** The canonical primary key of a row, with its validity state, its
      diagnostic messages, the row's write timestamp (None: null) and, when
      the map-explosion feature is on, the exploded map entry. */
  datatype PrimaryKey = PrimaryKey(
    values: seq<Value>,
    state: KeyState,
    messages: seq<string>,
    writeTimestamp: Option<int>,
    explodeMapKey: Value,
    explodeMapValue: Value)
  {
    predicate IsError() { state == Error }
    predicate IsWarning() { state == Warning }
  }

  /** The lookup key of a primary key: its canonical value tuple only, so two
      keys that differ only in state, messages or auxiliary fields are equal. */
  function KeyOf(pk: PrimaryKey): seq<Value>
  {
    pk.values
  }

  /** One row's origin payload and, once joined, its target payload
      (None: not found on the target). */
  datatype Record = Record(pk: PrimaryKey, originRow: Row, targetRow: Option<Row>)

  datatype CounterType = Read | Valid | Mismatch | CorrectedMismatch | Missing | CorrectedMissing | Skipped | Written

  /** A set of named progress counters (Java `long`s; every counter starts at
      zero and is only ever incremented, so overflow is out of reach). */
  datatype Counters = Counters(
    read: int, valid: int, mismatch: int, correctedMismatch: int,
    missing: int, correctedMissing: int, skipped: int, written: int)
  {
    function Get(t: CounterType): int
    {
      match t
      case Read => read
      case Valid => valid
      case Mismatch => mismatch
      case CorrectedMismatch => correctedMismatch
      case Missing => missing
      case CorrectedMissing => correctedMissing
      case Skipped => skipped
      case Written => written
    }

    /** The counters with `t` incremented by one; every other counter is kept. */
    function Inc(t: CounterType): Counters
    {
      match t
      case Read => this.(read := read + 1)
      case Valid => this.(valid := valid + 1)
      case Mismatch => this.(mismatch := mismatch + 1)
      case CorrectedMismatch => this.(correctedMismatch := correctedMismatch + 1)
      case Missing => this.(missing := missing + 1)
      case CorrectedMissing => this.(correctedMissing := correctedMissing + 1)
      case Skipped => this.(skipped := skipped + 1)
      case Written => this.(written := written + 1)
    }

    /** Merging one set of counters into another adds them counter by counter. */
    function Add(o: Counters): Counters
    {
      Counters(read + o.read, valid + o.valid, mismatch + o.mismatch,
               correctedMismatch + o.correctedMismatch, missing + o.missing,
               correctedMissing + o.correctedMissing, skipped + o.skipped, written + o.written)
    }
  }

  const Zero := Counters(0, 0, 0, 0, 0, 0, 0, 0)

  lemma AddZero(c: Counters)
    ensures c.Add(Zero) == c && Zero.Add(c) == c
  {
  }

  lemma AddAssoc(a: Counters, b: Counters, c: Counters)
    ensures a.Add(b).Add(c) == a.Add(b.Add(c))
  {
  }

  lemma IncAfterAdd(c: Counters, d: Counters, t: CounterType)
    ensures c.Add(d).Inc(t) == c.Inc(t).Add(d)
  {
  }

  lemma AppendAssoc<T>(a: seq<T>, b: seq<T>, c: seq<T>)
    ensures a + (b + c) == (a + b) + c
  {
  }

  /** Dropping the last element of a non-empty suffix. */
  lemma DropLastOfAppend<T>(a: seq<T>, b: seq<T>)
    requires b != []
    ensures (a + b)[..|a + b| - 1] == a + b[..|b| - 1]
    ensures (a + b)[|a + b| - 1] == b[|b| - 1]
  {
  }

  /** A single increment of counter `t`. */
  function One(t: CounterType): Counters
  {
    Zero.Inc(t)
  }
}
