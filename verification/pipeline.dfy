/**
 * `main` of the ETL script: countries, temperatures, airports and arrivals
 * are prepared and inserted in that order on one connection, the work is
 * committed, and the row counts are checked. The tables are assumed to
 * have been created beforehand by the bootstrap script, so loading starts
 * from a database in which all four are empty.
 */
module Pipeline {
  import opened Wrappers
  import opened Replacement
  import opened Relational
  import opened Sql
  import opened Store
  import opened Countries
  import Temperature
  import Airports
  import Arrivals
  import Quality

  /** The five input files, already read. */
  datatype Sources = Sources(
    countries: seq<CountryRecord>,
    isoCodes: seq<IsoRecord>,
    temperatures: seq<Temperature.TempRecord>,
    airports: seq<Airports.AirportRecord>,
    immigration: seq<Arrivals.I94Record>)

  /** The rows each `process_*` function inserts, computed before any of them is. */
  datatype Prepared = Prepared(
    countries: seq<Country>,
    temps: seq<Temperature.TempRow>,
    airports: seq<Airports.AirportRow>,
    arrivals: seq<Arrivals.ArrivalRow>)

  /**
   * The transformations: `countries_cleaning` feeds the temperature join,
   * and `iso_cleaning` together with it the airport joins. End to end, the
   * country list keeps every record and its code, no temperature or
   * airport row carries the duplicate US code, no temperature row predates
   * 2002, and the arrival counts account for every I94 record.
   */
  function Prepare(src: Sources): (p: Prepared)
    ensures |p.countries| == |src.countries|
    ensures forall i :: 0 <= i < |src.countries| ==> p.countries[i].code == src.countries[i].code
    ensures forall t :: t in p.temps ==> t.code != Temperature.DuplicateUsCode && t.year >= Temperature.FirstYear
    ensures forall a :: a in p.airports ==> a.countryId != Temperature.DuplicateUsCode
    ensures Arrivals.TotalCount(p.arrivals) == |src.immigration|
  {
    Arrivals.CountsSumToInput(src.immigration);
    var cs := CleanCountries(src.countries);
    Prepared(
      cs,
      Temperature.ProcessTemp(src.temperatures, cs),
      Airports.ProcessAirports(src.airports, CleanIsos(IsoDict, src.isoCodes), cs),
      Arrivals.ProcessImmigration(src.immigration))
  }

  /**
   * The preparation with `iso_dict` applied to the ISO join key, as
   * evidently intended: only the airport rows can differ.
   */
  function PrepareIntended(src: Sources): (p: Prepared)
    ensures p.countries == Prepare(src).countries
    ensures p.temps == Prepare(src).temps
    ensures p.arrivals == Prepare(src).arrivals
    ensures p.airports == Airports.ProcessAirports(src.airports, CleanIsosIntended(IsoDict, src.isoCodes), p.countries)
  {
    var cs := CleanCountries(src.countries);
    Prepared(
      cs,
      Temperature.ProcessTemp(src.temperatures, cs),
      Airports.ProcessAirports(src.airports, CleanIsosIntended(IsoDict, src.isoCodes), cs),
      Arrivals.ProcessImmigration(src.immigration))
  }

  /**
   * Every loaded temperature and airport row carries the code of some
   * record of the I94 country list: both reach a country only through the
   * join with `countries_cleaning`.
   */
  lemma PreparedCodesFromCountryList(src: Sources, t: Temperature.TempRow, a: Airports.AirportRow)
    ensures t in Prepare(src).temps ==> exists r :: r in src.countries && r.code == t.code
    ensures a in Prepare(src).airports ==> exists r :: r in src.countries && r.code == a.countryId
  {
    var cs := CleanCountries(src.countries);
    var p := Prepare(src);
    assert p.temps == Temperature.ProcessTemp(src.temperatures, cs);
    assert p.airports == Airports.ProcessAirports(src.airports, CleanIsos(IsoDict, src.isoCodes), cs);
    if t in p.temps {
      Temperature.TempCodesFromCountries(src.temperatures, cs, t);
      var c :| c in cs && c.code == t.code;
      CleanCountryCodes(src.countries, c);
    }
    if a in p.airports {
      Airports.AirportCodesFromCountries(src.airports, CleanIsos(IsoDict, src.isoCodes), cs, a);
      var c :| c in cs && c.code == a.countryId;
      CleanCountryCodes(src.countries, c);
    }
  }

  /** The four loading steps in the order `main` calls them, `arrivals` the insert used for the last. */
  function LoadWith(db: Db, p: Prepared, arrivals: Insert): Result<Db, DbError> {
    var db1 :- ExecuteAll(db, CountriesInsert, CountryParamLists(p.countries));
    var db2 :- ExecuteAll(db1, TempInsert, Temperature.TempParamLists(p.temps));
    var db3 :- ExecuteAll(db2, AirportsInsert, Airports.AirportParamLists(p.airports));
    ExecuteAll(db3, arrivals, Arrivals.ArrivalParamLists(p.arrivals))
  }

  /** What every table admits: the conditions under which no insert raises. */
  predicate Loadable(p: Prepared) {
    && CountriesLoadable(p.countries)
    && Temperature.TempLoadable(p.temps)
    && Airports.AirportsLoadable(p.airports)
    && Arrivals.ArrivalsLoadable(p.arrivals)
  }

  /** The four tables hold the prepared rows, and the other tables are as before. */
  predicate Holds(db: Db, db1: Db, p: Prepared, arrivals: Insert) {
    && db1.Keys == db.Keys
    && (forall u :: u in db && u !in TableNames ==> db1[u] == db[u])
    && "countries" in db1 && db1["countries"].rows == Project(p.countries, CountryParams)
    && "airports" in db1 && db1["airports"].rows == Project(p.airports, Airports.AirportParams)
    && "temp" in db1 && |db1["temp"].rows| == |p.temps|
    && (forall k :: 0 <= k < |p.temps| ==>
          db1["temp"].rows[k] == [Int(1 + k)] + Temperature.TempParams(p.temps[k]))
    && "arrivals" in db1 && |db1["arrivals"].rows| == |p.arrivals|
    && (forall k :: 0 <= k < |p.arrivals| ==>
          db1["arrivals"].rows[k] == [Int(1 + k)] + Arrivals.ArrivalParams(Arrivals.StoredAs(arrivals, p.arrivals[k])))
  }

  /**
   * Starting from freshly created tables, loading succeeds exactly when
   * every table admits its prepared rows.
   */
  lemma LoadSucceedsIff(db: Db, p: Prepared, arrivals: Insert)
    requires arrivals == ArrivalsInsert || arrivals == IntendedArrivalsInsert
    requires Fresh(db)
    ensures LoadWith(db, p, arrivals).Success? <==> Loadable(p)
  {
    CountriesLoadSucceedsIff(db, p.countries);
    if !CountriesLoadable(p.countries) {
      return;
    }
    CountriesLoadStores(db, p.countries);
    var db1 := ExecuteAll(db, CountriesInsert, CountryParamLists(p.countries)).value;
    Temperature.TempLoadSucceedsIff(db1, p.temps);
    if !Temperature.TempLoadable(p.temps) {
      return;
    }
    Temperature.TempLoadStores(db1, p.temps);
    var db2 := ExecuteAll(db1, TempInsert, Temperature.TempParamLists(p.temps)).value;
    Airports.AirportsLoadSucceedsIff(db2, p.airports);
    if !Airports.AirportsLoadable(p.airports) {
      return;
    }
    Airports.AirportsLoadStores(db2, p.airports);
    var db3 := ExecuteAll(db2, AirportsInsert, Airports.AirportParamLists(p.airports)).value;
    Arrivals.ArrivalsLoadSucceedsIff(db3, arrivals, p.arrivals);
  }

  /**
   * After a successful load from freshly created tables each table holds
   * exactly its prepared rows, in the order they were prepared, and
   * nothing else in the database changes.
   */
  lemma LoadStores(db: Db, p: Prepared, arrivals: Insert)
    requires arrivals == ArrivalsInsert || arrivals == IntendedArrivalsInsert
    requires Fresh(db)
    requires LoadWith(db, p, arrivals).Success?
    ensures Holds(db, LoadWith(db, p, arrivals).value, p, arrivals)
  {
    var r1 := ExecuteAll(db, CountriesInsert, CountryParamLists(p.countries));
    assert r1.Success?;
    CountriesLoadStores(db, p.countries);
    var db1 := r1.value;
    var r2 := ExecuteAll(db1, TempInsert, Temperature.TempParamLists(p.temps));
    assert r2.Success?;
    Temperature.TempLoadStores(db1, p.temps);
    var db2 := r2.value;
    var r3 := ExecuteAll(db2, AirportsInsert, Airports.AirportParamLists(p.airports));
    assert r3.Success?;
    Airports.AirportsLoadStores(db2, p.airports);
    var db3 := r3.value;
    assert LoadWith(db, p, arrivals) == ExecuteAll(db3, arrivals, Arrivals.ArrivalParamLists(p.arrivals));
    Arrivals.ArrivalsLoadStores(db3, arrivals, p.arrivals);
  }

  /** How `main` ends: an insert raised, or the load was committed and the check ran. */
  datatype Run =
    | Aborted(error: DbError)
    | Committed(db: Db, check: Quality.Outcome)

  /** `main` as written: the as-written insert for arrivals, then the as-written check. */
  function Main(db: Db, p: Prepared): Run {
    match LoadWith(db, p, ArrivalsInsert)
    case Failure(e) => Aborted(e)
    case Success(db1) => Committed(db1, Quality.QualityCheckAsWritten(db1))
  }

  /**
   * `main` with year and month inserted into their own columns and the
   * check reporting every failed table; run on `PrepareIntended` it also
   * has the ISO names reconciled.
   */
  function MainIntended(db: Db, p: Prepared): Run {
    match LoadWith(db, p, IntendedArrivalsInsert)
    case Failure(e) => Aborted(e)
    case Success(db1) => Committed(db1, Quality.QualityCheckIntended(db1))
  }

  /** The prepared row counts are the ones the quality check expects. */
  predicate ExpectedCounts(p: Prepared) {
    && |p.arrivals| == 224941
    && |p.airports| == 24566
    && |p.countries| == 289
    && |p.temps| == 21572
  }

  /**
   * On freshly created tables, `main` as written commits exactly when every
   * table admits its rows, and passes its check exactly when in addition
   * the row counts are the expected ones; every other committed run ends in
   * a TypeError, never in the ValueError the check means to raise.
   */
  lemma MainOutcomes(db: Db, p: Prepared)
    requires Fresh(db)
    ensures Main(db, p).Aborted? <==> !Loadable(p)
    ensures Main(db, p).Committed? && Main(db, p).check == Quality.Passed <==> Loadable(p) && ExpectedCounts(p)
    ensures Main(db, p).Committed? && !ExpectedCounts(p) ==> Main(db, p).check.TypeError?
  {
    LoadSucceedsIff(db, p, ArrivalsInsert);
    if Loadable(p) {
      LoadStores(db, p, ArrivalsInsert);
      var db1 := LoadWith(db, p, ArrivalsInsert).value;
      CountsAfterLoad(db, db1, p, ArrivalsInsert);
      Quality.AsWrittenPassesIff(db1);
      Quality.AsWrittenNeverValueError(db1);
      AllTablesChecked(db1);
    }
  }

  /**
   * On freshly created tables, the intended `main` commits exactly when
   * every table admits its rows, passes its check exactly when the row
   * counts are the expected ones, and otherwise ends in a ValueError.
   */
  lemma MainIntendedOutcomes(db: Db, p: Prepared)
    requires Fresh(db)
    ensures MainIntended(db, p).Aborted? <==> !Loadable(p)
    ensures MainIntended(db, p).Committed? ==>
      (MainIntended(db, p).check == Quality.Passed <==> ExpectedCounts(p))
    ensures MainIntended(db, p).Committed? && !ExpectedCounts(p) ==> MainIntended(db, p).check.ValueError?
  {
    LoadSucceedsIff(db, p, IntendedArrivalsInsert);
    if Loadable(p) {
      LoadStores(db, p, IntendedArrivalsInsert);
      var db2 := LoadWith(db, p, IntendedArrivalsInsert).value;
      CountsAfterLoad(db, db2, p, IntendedArrivalsInsert);
      Quality.IntendedReportsAllMismatches(db2);
      AllTablesChecked(db2);
    }
  }

  /** After a load, the quality check's counts are the prepared row counts. */
  lemma CountsAfterLoad(db: Db, db1: Db, p: Prepared, arrivals: Insert)
    requires Holds(db, db1, p, arrivals)
    ensures Quality.AllMatch(db1) <==> ExpectedCounts(p)
  {
    Quality.AllMatchMeans(db1);
    assert |db1["countries"].rows| == |p.countries|;
    assert |db1["airports"].rows| == |p.airports|;
  }

  /** Every table the check queries exists after a load. */
  lemma AllTablesChecked(db1: Db)
    requires "arrivals" in db1 && "airports" in db1 && "countries" in db1 && "temp" in db1
    ensures forall j :: 0 <= j < |Quality.Checks| ==> Quality.Checks[j].0 in db1
  {
  }

  /**
   * Loaded as written, the `year` column of every arrivals row holds the
   * month counted and the `month` column the year; loaded as intended,
   * both hold their own values.
   */
  lemma StoredYearAndMonth(db: Db, db1: Db, p: Prepared, arrivals: Insert, k: nat)
    requires Holds(db, db1, p, arrivals)
    requires k < |p.arrivals|
    ensures |db1["arrivals"].rows[k]| == 7
    ensures arrivals == ArrivalsInsert ==>
      db1["arrivals"].rows[k][4] == Int(WrapInt32(p.arrivals[k].month)) && db1["arrivals"].rows[k][5] == Int(WrapInt32(p.arrivals[k].year))
    ensures arrivals == IntendedArrivalsInsert ==>
      db1["arrivals"].rows[k][4] == Int(WrapInt32(p.arrivals[k].year)) && db1["arrivals"].rows[k][5] == Int(WrapInt32(p.arrivals[k].month))
  {
  }
}
