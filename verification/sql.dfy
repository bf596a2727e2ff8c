/**
 * The warehouse schema and statements of sql_queries.py: the four table
 * definitions (primary keys, NOT NULL columns, serial ids), the
 * parameterised inserts, and the drop/create query lists.
 */
module Sql {
  import opened Relational

  /**
   * A float cell. The pipeline never inspects temperature numbers, so a float
   * is kept as the expression that produced it: the mean of a group's
   * readings, or the Fahrenheit conversion of such a mean.
   */
  datatype Float = MeanOf(readings: seq<real>) | FahrenheitOf(celsius: Float)

  /** A value bound to a statement parameter, or stored in a cell. */
  datatype Value = Null | Int(i: int) | Text(s: string) | Real(f: Float)

  /** Column types used by the DDL: `serial`, `int`, `varchar`, `float`. */
  datatype SqlType = Serial | Integer | Varchar | Double

  datatype Column = Column(name: string, sqlType: SqlType, primaryKey: bool, notNull: bool)

  datatype TableDef = TableDef(name: string, columns: seq<Column>)

  /** `DROP TABLE IF EXISTS t;` and `CREATE TABLE IF NOT EXISTS t (...);`. */
  datatype Ddl = DropTableIfExists(table: string) | CreateTableIfNotExists(def: TableDef)

  /** One expression of a VALUES list: a `%s` parameter marker or the keyword DEFAULT. */
  datatype ValueExpr = Param | Default

  /** `INSERT INTO table (columns) VALUES (values)`. */
  datatype Insert = InsertInto(table: string, columns: seq<string>, values: seq<ValueExpr>)

  const ArrivalsDef := TableDef("arrivals", [
    Column("arrival_id", Serial, true, false),
    Column("country_id", Integer, false, false),
    Column("visa_type", Integer, false, false),
    Column("count", Integer, false, false),
    Column("year", Integer, false, true),
    Column("month", Integer, false, true),
    Column("port", Varchar, false, false)
  ])

  const AirportsDef := TableDef("airports", [
    Column("port", Varchar, true, false),
    Column("municipality", Varchar, false, false),
    Column("country_id", Integer, false, false),
    Column("region", Varchar, false, false)
  ])

  const CountriesDef := TableDef("countries", [
    Column("country_id", Integer, true, false),
    Column("country_name", Varchar, false, false)
  ])

  const TempDef := TableDef("temp", [
    Column("temp_id", Serial, true, false),
    Column("country_id", Integer, false, false),
    Column("year", Integer, false, true),
    Column("month", Integer, false, true),
    Column("avg_temp", Double, false, false),
    Column("avg_tempF", Double, false, false)
  ])

  const ArrivalsDrop := DropTableIfExists("arrivals")
  const AirportsDrop := DropTableIfExists("airports")
  const CountriesDrop := DropTableIfExists("countries")
  const TempDrop := DropTableIfExists("temp")

  const ArrivalsCreate := CreateTableIfNotExists(ArrivalsDef)
  const AirportsCreate := CreateTableIfNotExists(AirportsDef)
  const CountriesCreate := CreateTableIfNotExists(CountriesDef)
  const TempCreate := CreateTableIfNotExists(TempDef)

  /** Note the target list: `month` is named before `year`. */
  const ArrivalsInsert := InsertInto("arrivals",
    ["country_id", "visa_type", "count", "month", "year", "port"],
    [Param, Param, Param, Param, Param, Param])

  /** The arrivals insert with `year` named before `month`, matching the order of the values sent. */
  const IntendedArrivalsInsert := InsertInto("arrivals",
    ["country_id", "visa_type", "count", "year", "month", "port"],
    [Param, Param, Param, Param, Param, Param])

  const AirportsInsert := InsertInto("airports",
    ["port", "municipality", "country_id", "region"],
    [Param, Param, Param, Param])

  const CountriesInsert := InsertInto("countries",
    ["country_id", "country_name"],
    [Param, Param])

  const TempInsert := InsertInto("temp",
    ["country_id", "year", "month", "avg_temp", "avg_tempF"],
    [Param, Param, Param, Param, Param])

  const DropTableQueries := [ArrivalsDrop, AirportsDrop, CountriesDrop, TempDrop]
  const CreateTableQueries := [ArrivalsCreate, AirportsCreate, CountriesCreate, TempCreate]

  /** The table a DDL statement acts on. */
  function Target(d: Ddl): string {
    match d
    case DropTableIfExists(t) => t
    case CreateTableIfNotExists(def) => def.name
  }

  function Targets(ds: seq<Ddl>): seq<string> {
    seq(|ds|, i requires 0 <= i < |ds| => Target(ds[i]))
  }

  function ColumnNames(def: TableDef): seq<string> {
    seq(|def.columns|, i requires 0 <= i < |def.columns| => def.columns[i].name)
  }

  /** The number of `%s` markers psycopg2 fills from the parameter list. */
  function ParamCount(vs: seq<ValueExpr>): nat {
    if |vs| == 0 then 0 else ParamCount(vs[..|vs| - 1]) + (if vs[|vs| - 1] == Param then 1 else 0)
  }

  /**
   * An insert that binds its parameters one-to-one, in order, to distinct
   * existing columns of `def`, and names every column of `def` except the
   * serial ones, which are left to the table's sequence.
   */
  predicate PositionalInsert(ins: Insert, def: TableDef) {
    && ins.table == def.name
    && |ins.values| == |ins.columns|
    && (forall j :: 0 <= j < |ins.values| ==> ins.values[j] == Param)
    && NoDuplicates(ins.columns)
    && (forall c :: c in ins.columns ==> c in ColumnNames(def))
    && (forall i :: 0 <= i < |def.columns| ==> (def.columns[i].name in ins.columns <==> def.columns[i].sqlType != Serial))
  }

  /** A VALUES list made only of `%s` markers has one marker per expression. */
  lemma {:induction false} ParamCountOfParams(vs: seq<ValueExpr>)
    requires forall j :: 0 <= j < |vs| ==> vs[j] == Param
    ensures ParamCount(vs) == |vs|
  {
    if |vs| > 0 {
      ParamCountOfParams(vs[..|vs| - 1]);
    }
  }

  /**
   * Each of the four inserts has exactly one `%s` per listed column, names
   * only columns of its own table, and never supplies a serial id.
   */
  lemma InsertsArePositional()
    ensures PositionalInsert(ArrivalsInsert, ArrivalsDef)
    ensures PositionalInsert(AirportsInsert, AirportsDef)
    ensures PositionalInsert(CountriesInsert, CountriesDef)
    ensures PositionalInsert(TempInsert, TempDef)
    ensures ParamCount(ArrivalsInsert.values) == |ArrivalsInsert.columns| == 6
    ensures ParamCount(AirportsInsert.values) == |AirportsInsert.columns| == 4
    ensures ParamCount(CountriesInsert.values) == |CountriesInsert.columns| == 2
    ensures ParamCount(TempInsert.values) == |TempInsert.columns| == 5
  {
    ArrivalsInsertIsPositional();
    AirportsInsertIsPositional();
    CountriesInsertIsPositional();
    TempInsertIsPositional();
  }

  lemma ArrivalsInsertIsPositional()
    ensures PositionalInsert(ArrivalsInsert, ArrivalsDef)
    ensures ParamCount(ArrivalsInsert.values) == |ArrivalsInsert.columns| == 6
  {
    assert ColumnNames(ArrivalsDef) == ["arrival_id", "country_id", "visa_type", "count", "year", "month", "port"];
    assert NoDuplicates(ArrivalsInsert.columns);
    assert forall c :: c in ArrivalsInsert.columns ==> c in ColumnNames(ArrivalsDef);
    assert forall i :: 0 <= i < |ArrivalsDef.columns| ==>
      (ArrivalsDef.columns[i].name in ArrivalsInsert.columns <==> ArrivalsDef.columns[i].sqlType != Serial);
    ParamCountOfParams(ArrivalsInsert.values);
  }

  lemma IntendedArrivalsInsertIsPositional()
    ensures PositionalInsert(IntendedArrivalsInsert, ArrivalsDef)
    ensures ParamCount(IntendedArrivalsInsert.values) == |IntendedArrivalsInsert.columns| == 6
  {
    assert ColumnNames(ArrivalsDef) == ["arrival_id", "country_id", "visa_type", "count", "year", "month", "port"];
    assert NoDuplicates(IntendedArrivalsInsert.columns);
    assert forall c :: c in IntendedArrivalsInsert.columns ==> c in ColumnNames(ArrivalsDef);
    assert forall i :: 0 <= i < |ArrivalsDef.columns| ==>
      (ArrivalsDef.columns[i].name in IntendedArrivalsInsert.columns <==> ArrivalsDef.columns[i].sqlType != Serial);
    ParamCountOfParams(IntendedArrivalsInsert.values);
  }

  lemma AirportsInsertIsPositional()
    ensures PositionalInsert(AirportsInsert, AirportsDef)
    ensures ParamCount(AirportsInsert.values) == |AirportsInsert.columns| == 4
  {
    assert ColumnNames(AirportsDef) == ["port", "municipality", "country_id", "region"];
    assert NoDuplicates(AirportsInsert.columns);
    assert forall c :: c in AirportsInsert.columns ==> c in ColumnNames(AirportsDef);
    assert forall i :: 0 <= i < |AirportsDef.columns| ==>
      (AirportsDef.columns[i].name in AirportsInsert.columns <==> AirportsDef.columns[i].sqlType != Serial);
    ParamCountOfParams(AirportsInsert.values);
  }

  lemma CountriesInsertIsPositional()
    ensures PositionalInsert(CountriesInsert, CountriesDef)
    ensures ParamCount(CountriesInsert.values) == |CountriesInsert.columns| == 2
  {
    assert ColumnNames(CountriesDef) == ["country_id", "country_name"];
    assert NoDuplicates(CountriesInsert.columns);
    assert forall c :: c in CountriesInsert.columns ==> c in ColumnNames(CountriesDef);
    assert forall i :: 0 <= i < |CountriesDef.columns| ==>
      (CountriesDef.columns[i].name in CountriesInsert.columns <==> CountriesDef.columns[i].sqlType != Serial);
    ParamCountOfParams(CountriesInsert.values);
  }

  lemma TempInsertIsPositional()
    ensures PositionalInsert(TempInsert, TempDef)
    ensures ParamCount(TempInsert.values) == |TempInsert.columns| == 5
  {
    assert ColumnNames(TempDef) == ["temp_id", "country_id", "year", "month", "avg_temp", "avg_tempF"];
    assert NoDuplicates(TempInsert.columns);
    assert forall c :: c in TempInsert.columns ==> c in ColumnNames(TempDef);
    assert forall i :: 0 <= i < |TempDef.columns| ==>
      (TempDef.columns[i].name in TempInsert.columns <==> TempDef.columns[i].sqlType != Serial);
    ParamCountOfParams(TempInsert.values);
  }

  /** The drop list and the create list name the same four tables in the same order. */
  lemma QueryListsAgree()
    ensures Targets(DropTableQueries) == Targets(CreateTableQueries) == ["arrivals", "airports", "countries", "temp"]
    ensures forall i :: 0 <= i < |CreateTableQueries| ==> CreateTableQueries[i].CreateTableIfNotExists?
    ensures forall i :: 0 <= i < |DropTableQueries| ==> DropTableQueries[i].DropTableIfExists?
  {
  }
}
