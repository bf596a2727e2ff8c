/**
 * The warehouse as an immutable value: tables by name, each with its
 * definition, its rows in insertion order and the next id its serial
 * sequence hands out. `Insert` is one `cur.execute(insert, params)`: the
 * psycopg2 parameter check, then PostgreSQL's checks in the order of the
 * phases that make them, and on success one appended row.
 */
module Store {
  import opened Wrappers
  import opened Relational
  import opened Sql

  type Row = seq<Value>

  datatype Table = Table(def: TableDef, rows: seq<Row>, nextSerial: int)

  type Db = map<string, Table>

  datatype DbError =
    | WrongParameterCount(markers: nat, given: nat)
    | UndefinedTable(table: string)
    | UndefinedColumn
    | DuplicateColumn
    | ColumnCountMismatch
    | DatatypeMismatch
    | NumericOutOfRange
    | SequenceExhausted
    | NotNullViolation
    | UniqueViolation

  /** PostgreSQL `int` (and `serial`) is a signed 32-bit integer. */
  const Int32Min: int := -0x8000_0000
  const Int32Max: int := 0x7FFF_FFFF

  predicate InInt32(i: int) {
    Int32Min <= i <= Int32Max
  }

  /**
   * pandas `astype('int32')` on a 64-bit integer column: the low 32 bits,
   * read as a signed number. It never fails: a value outside the range
   * wraps around to the one congruent to it modulo 2^32.
   */
  function WrapInt32(x: int): (r: int)
    ensures InInt32(r)
    ensures InInt32(x) ==> r == x
    ensures (x - r) % 0x1_0000_0000 == 0
  {
    (x - Int32Min) % 0x1_0000_0000 + Int32Min
  }

  /** The wrapped value is the only `int` congruent to `x` modulo 2^32. */
  lemma WrapInt32Unique(x: int, r: int)
    requires InInt32(r) && (x - r) % 0x1_0000_0000 == 0
    ensures r == WrapInt32(x)
  {
    var w := WrapInt32(x);
    var d := (x - r) / 0x1_0000_0000 - (x - w) / 0x1_0000_0000;
    assert r - w == d * 0x1_0000_0000;
    assert -0x1_0000_0000 < r - w < 0x1_0000_0000;
  }

  /** Whether a value can be stored in a column of the given type without an error. */
  predicate Fits(v: Value, t: SqlType) {
    match v
    case Null => true
    case Int(i) => t == Double || ((t == Integer || t == Serial) && InInt32(i))
    case Text(_) => t == Varchar
    case Real(_) => t == Double
  }

  /** The position of the first occurrence of `x` in `xs`. */
  function IndexOf(xs: seq<string>, x: string): (j: nat)
    requires x in xs
    ensures j < |xs| && xs[j] == x
    ensures forall k :: 0 <= k < j ==> xs[k] != x
  {
    if xs[0] == x then 0 else 1 + IndexOf(xs[1..], x)
  }

  /** A `%s` marker's position among the markers of `vs` is the number of markers before it. */
  lemma {:induction false} ParamCountOfPrefix(vs: seq<ValueExpr>, j: nat)
    requires j < |vs| && vs[j] == Param
    ensures ParamCount(vs[..j]) < ParamCount(vs)
  {
    if j < |vs| - 1 {
      assert vs[..|vs| - 1][..j] == vs[..j];
      ParamCountOfPrefix(vs[..|vs| - 1], j);
    } else {
      assert vs[..|vs| - 1] == vs[..j];
    }
  }

  /** A column that gets its default: not listed, or listed with DEFAULT. */
  predicate TakesDefault(c: Column, ins: Insert)
    requires |ins.values| == |ins.columns|
  {
    c.name !in ins.columns || ins.values[IndexOf(ins.columns, c.name)] == Default
  }

  /**
   * The value a column receives: its `%s` parameter, or its default, which
   * is the sequence's next value for a serial column and NULL otherwise.
   */
  function Cell(c: Column, ins: Insert, params: seq<Value>, serial: int): Value
    requires |ins.values| == |ins.columns|
    requires |params| == ParamCount(ins.values)
  {
    if TakesDefault(c, ins) then
      (if c.sqlType == Serial then Int(serial) else Null)
    else
      var j := IndexOf(ins.columns, c.name);
      ParamCountOfPrefix(ins.values, j);
      params[ParamCount(ins.values[..j])]
  }

  /** The row an insert would store, in the table's column order. */
  function BuildRow(def: TableDef, ins: Insert, params: seq<Value>, serial: int): Row
    requires |ins.values| == |ins.columns|
    requires |params| == ParamCount(ins.values)
  {
    seq(|def.columns|, i requires 0 <= i < |def.columns| => Cell(def.columns[i], ins, params, serial))
  }

  /** In a list without repeats, the first occurrence is the only one. */
  lemma IndexOfUnique(xs: seq<string>, j: nat)
    requires NoDuplicates(xs) && j < |xs|
    ensures IndexOf(xs, xs[j]) == j
  {
    var k := IndexOf(xs, xs[j]);
    assert !(k < j) && !(j < k);
  }

  /**
   * Under a positional insert the column listed at position `j` receives
   * the `j`-th parameter.
   */
  lemma PositionalCell(def: TableDef, ins: Insert, params: seq<Value>, serial: int, i: nat, j: nat)
    requires PositionalInsert(ins, def) && |params| == |ins.columns|
    requires i < |def.columns| && j < |ins.columns| && ins.columns[j] == def.columns[i].name
    ensures Bindable(ins, params)
    ensures BuildRow(def, ins, params, serial)[i] == params[j]
  {
    ParamCountOfParams(ins.values);
    IndexOfUnique(ins.columns, j);
    ParamCountOfParams(ins.values[..j]);
  }

  /**
   * A positional insert with the right number of parameters passes the
   * statement checks, and draws from the sequence exactly when the table
   * has a serial column.
   */
  lemma PositionalWellFormed(def: TableDef, ins: Insert, params: seq<Value>)
    requires PositionalInsert(ins, def) && |params| == |ins.columns|
    ensures WellFormedFor(ins, def, params)
    ensures DrawsSerial(def, ins) <==> exists i :: 0 <= i < |def.columns| && def.columns[i].sqlType == Serial
  {
    ParamCountOfParams(ins.values);
  }

  /** Under a positional insert a serial column receives the sequence's value. */
  lemma PositionalSerial(def: TableDef, ins: Insert, params: seq<Value>, serial: int, i: nat)
    requires PositionalInsert(ins, def) && |params| == |ins.columns|
    requires i < |def.columns| && def.columns[i].sqlType == Serial
    ensures Bindable(ins, params)
    ensures BuildRow(def, ins, params, serial)[i] == Int(serial)
  {
    ParamCountOfParams(ins.values);
  }

  /** A row is its first cell followed by the rest. */
  lemma RowSplit(r: Row)
    requires |r| > 0
    ensures r == [r[0]] + r[1..]
  {
  }

  /**
   * When the table's columns are `lead` serial columns followed by the
   * listed columns in the listed order, the stored row is the sequence's
   * value `lead` times followed by the parameters as given.
   */
  lemma PositionalRowInOrder(def: TableDef, ins: Insert, params: seq<Value>, serial: int, lead: nat)
    requires PositionalInsert(ins, def) && |params| == |ins.columns|
    requires |def.columns| == lead + |ins.columns|
    requires forall i :: 0 <= i < lead ==> def.columns[i].sqlType == Serial
    requires forall j :: 0 <= j < |ins.columns| ==> def.columns[lead + j].name == ins.columns[j]
    ensures Bindable(ins, params)
    ensures var row := BuildRow(def, ins, params, serial);
      && |row| == lead + |params|
      && (forall i :: 0 <= i < lead ==> row[i] == Int(serial))
      && row[lead..] == params
  {
    ParamCountOfParams(ins.values);
    var row := BuildRow(def, ins, params, serial);
    forall j | 0 <= j < |params|
      ensures row[lead + j] == params[j]
    {
      PositionalCell(def, ins, params, serial, lead + j, j);
    }
  }

  /** `xs` rearranged: position `j` holds `xs[perm[j]]`. */
  function Permute(xs: seq<Value>, perm: seq<nat>): seq<Value>
    requires forall j :: 0 <= j < |perm| ==> perm[j] < |xs|
  {
    seq(|perm|, j requires 0 <= j < |perm| => xs[perm[j]])
  }

  /**
   * When the table's columns are one serial column followed by the listed
   * columns in the order `perm` picks them, the stored row is the
   * sequence's value followed by the parameters rearranged by `perm`.
   */
  lemma PositionalRowPermuted(def: TableDef, ins: Insert, params: seq<Value>, serial: int, perm: seq<nat>)
    requires PositionalInsert(ins, def) && |params| == |ins.columns|
    requires |def.columns| == 1 + |ins.columns| && def.columns[0].sqlType == Serial
    requires |perm| == |ins.columns|
    requires forall j :: 0 <= j < |perm| ==> perm[j] < |ins.columns| && def.columns[1 + j].name == ins.columns[perm[j]]
    ensures Bindable(ins, params)
    ensures BuildRow(def, ins, params, serial) == [Int(serial)] + Permute(params, perm)
  {
    ParamCountOfParams(ins.values);
    var row := BuildRow(def, ins, params, serial);
    var expected := [Int(serial)] + Permute(params, perm);
    PositionalSerial(def, ins, params, serial, 0);
    forall i | 0 <= i < |row|
      ensures row[i] == expected[i]
    {
      if i > 0 {
        PositionalCell(def, ins, params, serial, i, perm[i - 1]);
      }
    }
  }

  /** Some serial column would draw from the sequence. */
  predicate DrawsSerial(def: TableDef, ins: Insert)
    requires |ins.values| == |ins.columns|
  {
    exists i :: 0 <= i < |def.columns| && def.columns[i].sqlType == Serial && TakesDefault(def.columns[i], ins)
  }

  /** Every cell fits its column's type. */
  predicate RowFits(def: TableDef, row: Row) {
    |row| == |def.columns| && forall i :: 0 <= i < |row| ==> Fits(row[i], def.columns[i].sqlType)
  }

  /**
   * Every value the insert supplies (every cell not left to its default)
   * fits its column. These are the values PostgreSQL coerces while it
   * parses and plans the statement, before any default is evaluated.
   */
  predicate SuppliedFit(def: TableDef, ins: Insert, params: seq<Value>)
    requires |ins.values| == |ins.columns| && |params| == ParamCount(ins.values)
  {
    forall i :: 0 <= i < |def.columns| && !TakesDefault(def.columns[i], ins) ==>
      Fits(Cell(def.columns[i], ins, params, 0), def.columns[i].sqlType)
  }

  /** An integer too wide for an `int` or `serial` column. */
  predicate OutOfRange(v: Value, t: SqlType) {
    v.Int? && (t == Integer || t == Serial) && !InInt32(v.i)
  }

  /**
   * Every supplied value that does not fit is an integer out of range:
   * no value has the wrong type outright. PostgreSQL rejects a value of
   * the wrong type while parsing and an integer out of range only when
   * it folds the cast while planning, so this decides which is reported.
   */
  predicate MisfitsOnlyOutOfRange(def: TableDef, ins: Insert, params: seq<Value>)
    requires |ins.values| == |ins.columns| && |params| == ParamCount(ins.values)
  {
    forall i :: 0 <= i < |def.columns| && !TakesDefault(def.columns[i], ins) ==>
      var v := Cell(def.columns[i], ins, params, 0);
      !Fits(v, def.columns[i].sqlType) ==> OutOfRange(v, def.columns[i].sqlType)
  }

  /**
   * A built row fits exactly when the supplied values fit and, if a
   * serial default is drawn, the sequence value is an `int`.
   */
  lemma RowFitsIff(def: TableDef, ins: Insert, params: seq<Value>, serial: int)
    requires |ins.values| == |ins.columns| && |params| == ParamCount(ins.values)
    ensures RowFits(def, BuildRow(def, ins, params, serial)) <==>
      SuppliedFit(def, ins, params) && (DrawsSerial(def, ins) ==> InInt32(serial))
  {
    var row := BuildRow(def, ins, params, serial);
    forall i | 0 <= i < |def.columns| && !TakesDefault(def.columns[i], ins)
      ensures row[i] == Cell(def.columns[i], ins, params, 0)
    {
    }
    if RowFits(def, row) && DrawsSerial(def, ins) {
      var i :| 0 <= i < |def.columns| && def.columns[i].sqlType == Serial && TakesDefault(def.columns[i], ins);
      assert Fits(row[i], Serial);
    }
  }

  /** Every NOT NULL or PRIMARY KEY column holds a value. */
  predicate RowHasRequired(def: TableDef, row: Row) {
    |row| == |def.columns|
    && forall i :: 0 <= i < |row| && (def.columns[i].notNull || def.columns[i].primaryKey) ==> row[i] != Null
  }

  /** The two rows agree on some primary-key column. */
  predicate KeyClash(def: TableDef, r: Row, row: Row) {
    exists i :: 0 <= i < |def.columns| && def.columns[i].primaryKey && i < |r| && i < |row| && r[i] == row[i]
  }

  /** The insert's own shape is acceptable to psycopg2 and to PostgreSQL's parser. */
  predicate WellFormedFor(ins: Insert, def: TableDef, params: seq<Value>) {
    && |params| == ParamCount(ins.values)
    && (forall c :: c in ins.columns ==> c in ColumnNames(def))
    && NoDuplicates(ins.columns)
    && |ins.values| == |ins.columns|
  }

  /** Everything but the key check passes for `params` when the sequence stands at `serial`. */
  predicate Admissible(def: TableDef, ins: Insert, params: seq<Value>, serial: int) {
    && WellFormedFor(ins, def, params)
    && (DrawsSerial(def, ins) ==> serial <= Int32Max)
    && RowFits(def, BuildRow(def, ins, params, serial))
    && RowHasRequired(def, BuildRow(def, ins, params, serial))
  }

  /**
   * PostgreSQL's checks of one insert against an existing table, by the
   * phase that makes them: the parser resolves the columns and coerces the
   * supplied values, the planner folds the range checks, and only the
   * executor draws the serial default and then checks NOT NULL and the
   * key. On success the table has one more row and its sequence has
   * advanced (the model advances it on every insert, which no later
   * statement can observe).
   */
  function Append(t: Table, ins: Insert, params: seq<Value>): (r: Result<Table, DbError>)
    ensures r.Success? <==>
      && Admissible(t.def, ins, params, t.nextSerial)
      && forall prior :: prior in t.rows ==> !KeyClash(t.def, prior, BuildRow(t.def, ins, params, t.nextSerial))
    ensures r.Success? ==>
      && WellFormedFor(ins, t.def, params)
      && r.value == Table(t.def, t.rows + [BuildRow(t.def, ins, params, t.nextSerial)], t.nextSerial + 1)
  {
    if |params| != ParamCount(ins.values) then Failure(WrongParameterCount(ParamCount(ins.values), |params|))
    else if exists c :: c in ins.columns && c !in ColumnNames(t.def) then Failure(UndefinedColumn)
    else if !NoDuplicates(ins.columns) then Failure(DuplicateColumn)
    else if |ins.values| != |ins.columns| then Failure(ColumnCountMismatch)
    else if !SuppliedFit(t.def, ins, params) then
      Failure(if MisfitsOnlyOutOfRange(t.def, ins, params) then NumericOutOfRange else DatatypeMismatch)
    else if DrawsSerial(t.def, ins) && !InInt32(t.nextSerial) then Failure(SequenceExhausted)
    else
      var row := BuildRow(t.def, ins, params, t.nextSerial);
      RowFitsIff(t.def, ins, params, t.nextSerial);
      if !RowHasRequired(t.def, row) then Failure(NotNullViolation)
      else if exists prior :: prior in t.rows && KeyClash(t.def, prior, row) then Failure(UniqueViolation)
      else Success(Table(t.def, t.rows + [row], t.nextSerial + 1))
  }

  /**
   * `cur.execute(insert, params)`: psycopg2 first matches the parameters to
   * the `%s` markers, then PostgreSQL resolves the table and checks the
   * row. A failure leaves the caller's database as it was; a success
   * changes only the insert's table.
   */
  function Execute(db: Db, ins: Insert, params: seq<Value>): (r: Result<Db, DbError>)
    ensures r.Success? <==> ins.table in db && Append(db[ins.table], ins, params).Success?
    ensures r.Success? ==> r.value == db[ins.table := Append(db[ins.table], ins, params).value]
    ensures |params| != ParamCount(ins.values) ==> r == Failure(WrongParameterCount(ParamCount(ins.values), |params|))
    ensures |params| == ParamCount(ins.values) && ins.table !in db ==> r == Failure(UndefinedTable(ins.table))
  {
    if |params| != ParamCount(ins.values) then Failure(WrongParameterCount(ParamCount(ins.values), |params|))
    else if ins.table !in db then Failure(UndefinedTable(ins.table))
    else
      var t :- Append(db[ins.table], ins, params);
      Success(db[ins.table := t])
  }

  /** One `cur.execute` per parameter list, in order; the first failure ends the run. */
  function ExecuteAll(db: Db, ins: Insert, ps: seq<seq<Value>>): (r: Result<Db, DbError>)
    decreases |ps|
  {
    if |ps| == 0 then Success(db)
    else
      var db1 :- Execute(db, ins, ps[0]);
      ExecuteAll(db1, ins, ps[1..])
  }

  /** The same run seen from the one table it writes to. */
  function AppendAll(t: Table, ins: Insert, ps: seq<seq<Value>>): (r: Result<Table, DbError>)
    decreases |ps|
  {
    if |ps| == 0 then Success(t)
    else
      var t1 :- Append(t, ins, ps[0]);
      AppendAll(t1, ins, ps[1..])
  }

  /**
   * On an existing table, a run of inserts does to the database exactly
   * what it does to that table, and touches nothing else.
   */
  lemma {:induction false} ExecuteAllIsAppendAll(db: Db, ins: Insert, ps: seq<seq<Value>>)
    requires ins.table in db
    ensures ExecuteAll(db, ins, ps).Success? <==> AppendAll(db[ins.table], ins, ps).Success?
    ensures ExecuteAll(db, ins, ps).Success? ==>
      ExecuteAll(db, ins, ps).value == db[ins.table := AppendAll(db[ins.table], ins, ps).value]
    decreases |ps|
  {
    if |ps| > 0 {
      var a := Append(db[ins.table], ins, ps[0]);
      if a.Success? {
        var db1 := db[ins.table := a.value];
        assert Execute(db, ins, ps[0]) == Success(db1);
        ExecuteAllIsAppendAll(db1, ins, ps[1..]);
        assert db1[ins.table] == a.value;
        var rest := AppendAll(a.value, ins, ps[1..]);
        if rest.Success? {
          assert db1[ins.table := rest.value] == db[ins.table := rest.value];
        }
      }
    } else {
      assert db[ins.table := db[ins.table]] == db;
    }
  }

  /** The parameter list fits the statement's markers, and the statement its own column list. */
  predicate Bindable(ins: Insert, params: seq<Value>) {
    |ins.values| == |ins.columns| && |params| == ParamCount(ins.values)
  }

  /** The rows a run of inserts would store, the k-th drawing sequence value `serial + k`. */
  function Built(def: TableDef, ins: Insert, ps: seq<seq<Value>>, serial: int): seq<Row> {
    seq(|ps|, k requires 0 <= k < |ps| =>
      if Bindable(ins, ps[k]) then BuildRow(def, ins, ps[k], serial + k) else [])
  }

  /** The k-th row of a run is the row its parameters build with the k-th sequence value. */
  lemma BuiltAt(def: TableDef, ins: Insert, ps: seq<seq<Value>>, serial: int, k: nat)
    requires k < |ps| && Bindable(ins, ps[k])
    ensures |Built(def, ins, ps, serial)| == |ps|
    ensures Built(def, ins, ps, serial)[k] == BuildRow(def, ins, ps[k], serial + k)
  {
  }

  /**
   * A run of a positional insert whose listed columns follow `lead` serial
   * columns in the listed order stores, for each parameter list, the
   * sequence's value `lead` times followed by the parameters as given.
   */
  lemma BuiltInOrder(def: TableDef, ins: Insert, ps: seq<seq<Value>>, serial: int, lead: nat)
    requires PositionalInsert(ins, def)
    requires |def.columns| == lead + |ins.columns| && lead <= 1
    requires forall i :: 0 <= i < lead ==> def.columns[i].sqlType == Serial
    requires forall j :: 0 <= j < |ins.columns| ==> def.columns[lead + j].name == ins.columns[j]
    requires forall k :: 0 <= k < |ps| ==> |ps[k]| == |ins.columns|
    ensures |Built(def, ins, ps, serial)| == |ps|
    ensures forall k :: 0 <= k < |ps| ==>
      Built(def, ins, ps, serial)[k] == (if lead == 0 then [] else [Int(serial + k)]) + ps[k]
  {
    forall k | 0 <= k < |ps|
      ensures Built(def, ins, ps, serial)[k] == (if lead == 0 then [] else [Int(serial + k)]) + ps[k]
    {
      PositionalRowInOrder(def, ins, ps[k], serial + k, lead);
      BuiltAt(def, ins, ps, serial, k);
      var row := BuildRow(def, ins, ps[k], serial + k);
      if lead == 1 {
        RowSplit(row);
      }
    }
  }

  /** The same for a run of inserts whose columns `perm` rearranges. */
  lemma BuiltPermuted(def: TableDef, ins: Insert, ps: seq<seq<Value>>, serial: int, perm: seq<nat>)
    requires PositionalInsert(ins, def)
    requires |def.columns| == 1 + |ins.columns| && def.columns[0].sqlType == Serial
    requires |perm| == |ins.columns|
    requires forall j :: 0 <= j < |perm| ==> perm[j] < |ins.columns| && def.columns[1 + j].name == ins.columns[perm[j]]
    requires forall k :: 0 <= k < |ps| ==> |ps[k]| == |ins.columns|
    ensures |Built(def, ins, ps, serial)| == |ps|
    ensures forall k :: 0 <= k < |ps| ==> Built(def, ins, ps, serial)[k] == [Int(serial + k)] + Permute(ps[k], perm)
  {
    forall k | 0 <= k < |ps|
      ensures Built(def, ins, ps, serial)[k] == [Int(serial + k)] + Permute(ps[k], perm)
    {
      PositionalRowPermuted(def, ins, ps[k], serial + k, perm);
      BuiltAt(def, ins, ps, serial, k);
    }
  }

  /** No new row clashes on a key with an existing row or with an earlier new row. */
  predicate FreshKeys(def: TableDef, existing: seq<Row>, rows: seq<Row>) {
    && (forall k, prior :: 0 <= k < |rows| && prior in existing ==> !KeyClash(def, prior, rows[k]))
    && (forall k1, k2 :: 0 <= k1 < k2 < |rows| ==> !KeyClash(def, rows[k1], rows[k2]))
  }

  /** Key freshness of a run peels off its first row. */
  lemma FreshKeysFirst(def: TableDef, existing: seq<Row>, b: seq<Row>)
    requires |b| > 0
    ensures FreshKeys(def, existing, b) <==>
      (forall prior :: prior in existing ==> !KeyClash(def, prior, b[0])) && FreshKeys(def, existing + [b[0]], b[1..])
  {
    if (forall prior :: prior in existing ==> !KeyClash(def, prior, b[0])) && FreshKeys(def, existing + [b[0]], b[1..]) {
      forall k1, k2 | 0 <= k1 < k2 < |b|
        ensures !KeyClash(def, b[k1], b[k2])
      {
        assert b[k2] == b[1..][k2 - 1];
        if k1 == 0 {
          assert b[k1] in existing + [b[0]];
        } else {
          assert b[k1] == b[1..][k1 - 1];
        }
      }
      forall k, prior | 0 <= k < |b| && prior in existing
        ensures !KeyClash(def, prior, b[k])
      {
        assert prior in existing + [b[0]];
        if k > 0 {
          assert b[k] == b[1..][k - 1];
        }
      }
    }
    if FreshKeys(def, existing, b) {
      forall k, prior | 0 <= k < |b[1..]| && prior in existing + [b[0]]
        ensures !KeyClash(def, prior, b[1..][k])
      {
        assert b[1..][k] == b[k + 1];
      }
    }
  }

  /** Every parameter list of a run passes the per-row checks, the k-th at sequence value `serial + k`. */
  predicate AllAdmissible(def: TableDef, ins: Insert, ps: seq<seq<Value>>, serial: int) {
    forall k :: 0 <= k < |ps| ==> Admissible(def, ins, ps[k], serial + k)
  }

  /** Per-row admissibility of a run peels off its first row. */
  lemma AdmissibleFirst(def: TableDef, ins: Insert, ps: seq<seq<Value>>, serial: int)
    requires |ps| > 0
    ensures AllAdmissible(def, ins, ps, serial) <==>
      Admissible(def, ins, ps[0], serial) && AllAdmissible(def, ins, ps[1..], serial + 1)
  {
    if Admissible(def, ins, ps[0], serial) && AllAdmissible(def, ins, ps[1..], serial + 1) {
      forall k | 0 < k < |ps|
        ensures Admissible(def, ins, ps[k], serial + k)
      {
        assert ps[k] == ps[1..][k - 1];
      }
    }
  }

  /** The rows of a run after its first are the run from the next sequence value. */
  lemma BuiltTail(def: TableDef, ins: Insert, ps: seq<seq<Value>>, serial: int)
    requires |ps| > 0
    ensures Built(def, ins, ps[1..], serial + 1) == Built(def, ins, ps, serial)[1..]
    ensures Bindable(ins, ps[0]) ==> Built(def, ins, ps, serial)[0] == BuildRow(def, ins, ps[0], serial)
  {
  }

  /** A run goes through row by row: each row passes its checks against the rows before it. */
  predicate RunsThrough(def: TableDef, rows: seq<Row>, serial: int, ins: Insert, ps: seq<seq<Value>>)
    decreases |ps|
  {
    |ps| == 0 ||
    (&& Admissible(def, ins, ps[0], serial)
     && (forall prior :: prior in rows ==> !KeyClash(def, prior, BuildRow(def, ins, ps[0], serial)))
     && RunsThrough(def, rows + [BuildRow(def, ins, ps[0], serial)], serial + 1, ins, ps[1..]))
  }

  /** `AppendAll` succeeds exactly on runs that go through. */
  lemma {:induction false} AppendAllRunsThrough(t: Table, ins: Insert, ps: seq<seq<Value>>)
    ensures AppendAll(t, ins, ps).Success? <==> RunsThrough(t.def, t.rows, t.nextSerial, ins, ps)
    decreases |ps|
  {
    if |ps| > 0 {
      var a := Append(t, ins, ps[0]);
      if a.Success? {
        AppendAllRunsThrough(a.value, ins, ps[1..]);
      }
    }
  }

  /** A successful run appends the built rows, in order, and advances the sequence once per row. */
  lemma {:induction false} AppendAllAppends(t: Table, ins: Insert, ps: seq<seq<Value>>)
    requires AppendAll(t, ins, ps).Success?
    ensures AppendAll(t, ins, ps).value == Table(t.def, t.rows + Built(t.def, ins, ps, t.nextSerial), t.nextSerial + |ps|)
    decreases |ps|
  {
    if |ps| > 0 {
      var t1 := AppendAllFirst(t, ins, ps);
      AppendAllAppends(t1, ins, ps[1..]);
      RunAfterFirst(t, ins, ps);
    }
  }

  /** The first row of a run followed by the rows of the rest of the run are the rows of the whole run. */
  lemma RunAfterFirst(t: Table, ins: Insert, ps: seq<seq<Value>>)
    requires |ps| > 0 && Bindable(ins, ps[0])
    ensures var t1 := Table(t.def, t.rows + [BuildRow(t.def, ins, ps[0], t.nextSerial)], t.nextSerial + 1);
      t1.rows + Built(t1.def, ins, ps[1..], t1.nextSerial) == t.rows + Built(t.def, ins, ps, t.nextSerial)
  {
    var b := Built(t.def, ins, ps, t.nextSerial);
    BuiltTail(t.def, ins, ps, t.nextSerial);
    SnocThenTail(t.rows, b);
  }

  /** A successful run's first insert succeeds, and the rest of the run continues from its table. */
  lemma AppendAllFirst(t: Table, ins: Insert, ps: seq<seq<Value>>) returns (t1: Table)
    requires |ps| > 0 && AppendAll(t, ins, ps).Success?
    ensures Append(t, ins, ps[0]).Success? && t1 == Append(t, ins, ps[0]).value
    ensures t1 == Table(t.def, t.rows + [BuildRow(t.def, ins, ps[0], t.nextSerial)], t.nextSerial + 1)
    ensures Bindable(ins, ps[0])
    ensures AppendAll(t, ins, ps) == AppendAll(t1, ins, ps[1..])
  {
    t1 := Append(t, ins, ps[0]).value;
  }

  lemma SnocThenTail(rows: seq<Row>, b: seq<Row>)
    requires |b| > 0
    ensures (rows + [b[0]]) + b[1..] == rows + b
  {
    assert b == [b[0]] + b[1..];
  }

  /** A run goes through exactly when every row passes its checks and no key repeats. */
  lemma {:induction false} RunsThroughIff(def: TableDef, rows: seq<Row>, serial: int, ins: Insert, ps: seq<seq<Value>>)
    ensures RunsThrough(def, rows, serial, ins, ps) <==>
      AllAdmissible(def, ins, ps, serial) && FreshKeys(def, rows, Built(def, ins, ps, serial))
    decreases |ps|
  {
    if |ps| > 0 {
      AdmissibleFirst(def, ins, ps, serial);
      if Admissible(def, ins, ps[0], serial) {
        var b := Built(def, ins, ps, serial);
        BuiltTail(def, ins, ps, serial);
        RunsThroughIff(def, rows + [b[0]], serial + 1, ins, ps[1..]);
        FreshKeysFirst(def, rows, b);
      }
    }
  }

  /**
   * A run of inserts into one table succeeds exactly when every parameter
   * list passes the per-row checks and no key repeats, either against the
   * table's rows or within the run; it then appends those rows in order.
   */
  lemma AppendAllSucceedsIff(t: Table, ins: Insert, ps: seq<seq<Value>>)
    ensures AppendAll(t, ins, ps).Success? <==>
      && AllAdmissible(t.def, ins, ps, t.nextSerial)
      && FreshKeys(t.def, t.rows, Built(t.def, ins, ps, t.nextSerial))
    ensures AppendAll(t, ins, ps).Success? ==>
      AppendAll(t, ins, ps).value == Table(t.def, t.rows + Built(t.def, ins, ps, t.nextSerial), t.nextSerial + |ps|)
  {
    AppendAllRunsThrough(t, ins, ps);
    RunsThroughIff(t.def, t.rows, t.nextSerial, ins, ps);
    if AppendAll(t, ins, ps).Success? {
      AppendAllAppends(t, ins, ps);
    }
  }

  /**
   * The same for the database: a run on an existing table succeeds exactly
   * when the rows pass their checks and bring no repeated key.
   */
  lemma ExecuteAllSucceedsIff(db: Db, ins: Insert, ps: seq<seq<Value>>)
    requires ins.table in db
    ensures ExecuteAll(db, ins, ps).Success? <==>
      && AllAdmissible(db[ins.table].def, ins, ps, db[ins.table].nextSerial)
      && FreshKeys(db[ins.table].def, db[ins.table].rows, Built(db[ins.table].def, ins, ps, db[ins.table].nextSerial))
  {
    ExecuteAllIsAppendAll(db, ins, ps);
    AppendAllSucceedsIff(db[ins.table], ins, ps);
  }

  /**
   * After a successful run the table holds its old rows followed by the
   * new ones, in order, and no other table changes.
   */
  lemma ExecuteAllAppends(db: Db, ins: Insert, ps: seq<seq<Value>>)
    requires ins.table in db && ExecuteAll(db, ins, ps).Success?
    ensures ExecuteAll(db, ins, ps).value.Keys == db.Keys
    ensures forall u :: u in db && u != ins.table ==> ExecuteAll(db, ins, ps).value[u] == db[u]
    ensures ExecuteAll(db, ins, ps).value[ins.table].rows == db[ins.table].rows + Built(db[ins.table].def, ins, ps, db[ins.table].nextSerial)
  {
    ExecuteAllIsAppendAll(db, ins, ps);
    AppendAllSucceedsIff(db[ins.table], ins, ps);
  }

  /**
   * A successful insert adds exactly one row, at the end of its own table,
   * and leaves every other table as it was.
   */
  lemma ExecuteAddsOneRow(db: Db, ins: Insert, params: seq<Value>)
    requires Execute(db, ins, params).Success?
    ensures ins.table in db
    ensures var db1 := Execute(db, ins, params).value;
      && db1.Keys == db.Keys
      && (forall u :: u in db && u != ins.table ==> db1[u] == db[u])
      && db1[ins.table].def == db[ins.table].def
      && |db1[ins.table].rows| == |db[ins.table].rows| + 1
      && db1[ins.table].rows[..|db[ins.table].rows|] == db[ins.table].rows
  {
  }

  /**
   * A well-formed insert whose row leaves a NOT NULL or primary-key column
   * empty fails, with a not-null violation unless the sequence was
   * exhausted or a supplied value was rejected first.
   */
  lemma MissingValueRejected(db: Db, ins: Insert, params: seq<Value>)
    requires ins.table in db && WellFormedFor(ins, db[ins.table].def, params)
    requires !RowHasRequired(db[ins.table].def, BuildRow(db[ins.table].def, ins, params, db[ins.table].nextSerial))
    ensures Execute(db, ins, params).Failure?
    ensures Execute(db, ins, params).error in {DatatypeMismatch, NumericOutOfRange, SequenceExhausted, NotNullViolation}
  {
  }

  /** A NULL in a NOT NULL column leaves a required value missing. */
  lemma NullInRequiredColumn(def: TableDef, row: Row, i: nat)
    requires |row| == |def.columns| && i < |row|
    requires def.columns[i].notNull && row[i] == Null
    ensures !RowHasRequired(def, row)
  {
  }

  /**
   * A positional insert binding NULL to a parameter whose column is NOT
   * NULL fails, with a not-null violation unless the sequence was
   * exhausted or a supplied value was rejected first.
   */
  lemma NullParamRejected(db: Db, ins: Insert, params: seq<Value>, i: nat, j: nat)
    requires ins.table in db && PositionalInsert(ins, db[ins.table].def) && |params| == |ins.columns|
    requires i < |db[ins.table].def.columns| && j < |ins.columns| && ins.columns[j] == db[ins.table].def.columns[i].name
    requires db[ins.table].def.columns[i].notNull && params[j] == Null
    ensures Execute(db, ins, params).Failure?
    ensures Execute(db, ins, params).error in {DatatypeMismatch, NumericOutOfRange, SequenceExhausted, NotNullViolation}
  {
    var t := db[ins.table];
    PositionalWellFormed(t.def, ins, params);
    PositionalCell(t.def, ins, params, t.nextSerial, i, j);
    NullInRequiredColumn(t.def, BuildRow(t.def, ins, params, t.nextSerial), i);
    MissingValueRejected(db, ins, params);
  }

  /**
   * A positional insert binding an integer outside int's range to an `int`
   * column fails with a value error, whatever the state of the sequence,
   * since the value is rejected before any default is drawn.
   */
  lemma OutOfRangeParamRejected(db: Db, ins: Insert, params: seq<Value>, i: nat, j: nat)
    requires ins.table in db && PositionalInsert(ins, db[ins.table].def) && |params| == |ins.columns|
    requires i < |db[ins.table].def.columns| && j < |ins.columns| && ins.columns[j] == db[ins.table].def.columns[i].name
    requires db[ins.table].def.columns[i].sqlType == Integer && params[j].Int? && !InInt32(params[j].i)
    ensures Execute(db, ins, params).Failure?
    ensures Execute(db, ins, params).error in {DatatypeMismatch, NumericOutOfRange}
  {
    var t := db[ins.table];
    PositionalWellFormed(t.def, ins, params);
    PositionalCell(t.def, ins, params, 0, i, j);
    assert BuildRow(t.def, ins, params, 0)[i] == Cell(t.def.columns[i], ins, params, 0);
    assert !SuppliedFit(t.def, ins, params);
  }

  /**
   * For a table whose only key is its first column, a row clashes with a
   * stored one exactly when both have a first cell and the cells are equal.
   */
  lemma FirstColumnKeyClash(def: TableDef, prior: Row, row: Row)
    requires |def.columns| > 0 && def.columns[0].primaryKey
    requires forall i :: 0 < i < |def.columns| ==> !def.columns[i].primaryKey
    requires |row| > 0
    ensures KeyClash(def, prior, row) <==> |prior| > 0 && prior[0] == row[0]
  {
    if |prior| > 0 && prior[0] == row[0] {
      assert def.columns[0].primaryKey && 0 < |prior| && 0 < |row|;
    }
  }

  /** `DROP TABLE IF EXISTS` / `CREATE TABLE IF NOT EXISTS`; neither can fail. */
  function RunDdl(db: Db, d: Ddl): (r: Db)
    ensures d.DropTableIfExists? ==> r.Keys == db.Keys - {d.table}
    ensures d.CreateTableIfNotExists? ==> r.Keys == db.Keys + {d.def.name}
    ensures forall u :: u in db && u != Target(d) ==> u in r && r[u] == db[u]
    ensures d.CreateTableIfNotExists? && d.def.name in db ==> r[d.def.name] == db[d.def.name]
    ensures d.CreateTableIfNotExists? && d.def.name !in db ==> r[d.def.name] == Table(d.def, [], 1)
  {
    match d
    case DropTableIfExists(t) => db - {t}
    case CreateTableIfNotExists(def) => if def.name in db then db else db[def.name := Table(def, [], 1)]
  }

  /** A list of DDL statements, executed in order. */
  function RunScript(db: Db, ds: seq<Ddl>): Db
    decreases |ds|
  {
    if |ds| == 0 then db else RunScript(RunDdl(db, ds[0]), ds[1..])
  }

  /** `drop_tables` then `create_tables`. */
  function Bootstrap(db: Db): Db {
    RunScript(RunScript(db, DropTableQueries), CreateTableQueries)
  }

  /** The four tables as `CREATE TABLE` leaves them: defined, empty, sequences at 1. */
  predicate Fresh(db: Db) {
    && "arrivals" in db && db["arrivals"] == Table(ArrivalsDef, [], 1)
    && "airports" in db && db["airports"] == Table(AirportsDef, [], 1)
    && "countries" in db && db["countries"] == Table(CountriesDef, [], 1)
    && "temp" in db && db["temp"] == Table(TempDef, [], 1)
  }

  /** The four table names of the schema. */
  const TableNames: set<string> := {"arrivals", "airports", "countries", "temp"}

  /** `drop_tables` removes the four tables and nothing else. */
  lemma DropsRemoveTables(db: Db)
    ensures RunScript(db, DropTableQueries).Keys == db.Keys - TableNames
    ensures forall u :: u in db && u !in TableNames ==> RunScript(db, DropTableQueries)[u] == db[u]
  {
    var q := DropTableQueries;
    var d1 := RunDdl(db, q[0]);
    var d2 := RunDdl(d1, q[1]);
    var d3 := RunDdl(d2, q[2]);
    var d4 := RunDdl(d3, q[3]);
    assert RunScript(db, q) == RunScript(d1, q[1..]);
    assert q[1..][1..] == q[2..] && q[2..][1..] == q[3..] && q[3..][1..] == q[4..];
    assert RunScript(d1, q[1..]) == RunScript(d2, q[2..]);
    assert RunScript(d2, q[2..]) == RunScript(d3, q[3..]);
    assert RunScript(d3, q[3..]) == RunScript(d4, q[4..]);
  }

  /** On a database without them, `create_tables` adds the four tables, empty. */
  lemma CreatesAddTables(db: Db)
    requires db.Keys !! TableNames
    ensures Fresh(RunScript(db, CreateTableQueries))
    ensures RunScript(db, CreateTableQueries).Keys == db.Keys + TableNames
    ensures forall u :: u in db ==> RunScript(db, CreateTableQueries)[u] == db[u]
  {
    var q := CreateTableQueries;
    var c1 := RunDdl(db, q[0]);
    var c2 := RunDdl(c1, q[1]);
    var c3 := RunDdl(c2, q[2]);
    var c4 := RunDdl(c3, q[3]);
    assert RunScript(db, q) == RunScript(c1, q[1..]);
    assert q[1..][1..] == q[2..] && q[2..][1..] == q[3..] && q[3..][1..] == q[4..];
    assert RunScript(c1, q[1..]) == RunScript(c2, q[2..]);
    assert RunScript(c2, q[2..]) == RunScript(c3, q[3..]);
    assert RunScript(c3, q[3..]) == RunScript(c4, q[4..]);
  }

  /**
   * Whatever the database held before, dropping and re-creating the four
   * tables leaves them empty with their declared definitions, and leaves
   * every other table alone.
   */
  lemma BootstrapIsFresh(db: Db)
    ensures Fresh(Bootstrap(db))
    ensures Bootstrap(db).Keys == db.Keys + TableNames
    ensures forall u :: u in db && u !in TableNames ==> Bootstrap(db)[u] == db[u]
  {
    DropsRemoveTables(db);
    CreatesAddTables(RunScript(db, DropTableQueries));
  }

  /** The number of rows `SELECT COUNT(*)` reports for a table, when it exists. */
  function RowCount(db: Db, table: string): Option<nat> {
    if table in db then Some(|db[table].rows|) else None
  }
}
