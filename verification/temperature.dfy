/**
 * `process_temp`: city temperature readings keyed by their upper-cased,
 * `temp_dict`-cleaned country and their year and month, averaged per key,
 * joined to the cleaned country list, filtered and loaded into `temp`.
 */
module Temperature {
  import opened Wrappers
  import opened Text
  import opened Replacement
  import opened Relational
  import opened Sql
  import opened Store
  import opened Countries

  /**
   * A row of the city temperature file: the `Country` column, the year and
   * month extracted from `dt`, and `AverageTemperature`, which may be empty.
   */
  datatype TempRecord = TempRecord(country: string, year: int, month: int, avg: Option<real>)

  /** The grouping key `(country, year, month)`. */
  datatype TempKey = TempKey(country: string, year: int, month: int)

  /** One group whose mean is not null: its key and the non-null readings averaged. */
  datatype TempAvg = TempAvg(key: TempKey, readings: seq<real>)

  /** A row sent to `temp_insert`: `(code, year, month, avg_temp, avg_tempF)`. */
  datatype TempRow = TempRow(code: int, year: int, month: int, avgTemp: Float, avgTempF: Float)

  /** The country-code the US carries a second time in the I94 list; rows with it are dropped. */
  const DuplicateUsCode: int := 583

  /** The first year kept. */
  const FirstYear: int := 2002

  /** `upper(Country)`, then `temp_dict` applied to that column. */
  function CleanTempCountry(country: string): string {
    ReplaceCell(TempDict, Upper(country))
  }

  /**
   * A dictionary key is rewritten to its value, anything else stays the
   * upper-cased name; the result is upper case unless `temp_dict` rewrote
   * it, and is never one of the dictionary's keys.
   */
  lemma CleanTempCountryFacts(country: string)
    ensures Upper(country) in TempDict ==> CleanTempCountry(country) == TempDict[Upper(country)]
    ensures CleanTempCountry(country) !in TempDict
    ensures Upper(country) !in TempDict ==> CleanTempCountry(country) == Upper(country)
    ensures IsUpperCase(CleanTempCountry(country)) || Upper(country) in TempDict
  {
    TempDictHasNoChains();
    ReplaceChangesOnlyKeys(TempDict, Upper(country));
  }

  function KeyOf(r: TempRecord): TempKey {
    TempKey(CleanTempCountry(r.country), r.year, r.month)
  }

  /** A record as the grouping sees it: its key and its reading. */
  function Reading(r: TempRecord): (TempKey, Option<real>) {
    (KeyOf(r), r.avg)
  }

  function Keyed(rs: seq<TempRecord>): seq<(TempKey, Option<real>)> {
    Project(rs, Reading)
  }

  /** A keyed reading comes from a record with that key and that reading. */
  lemma KeyedMembership(rs: seq<TempRecord>, k: TempKey, v: Option<real>)
    ensures (k, v) in Keyed(rs) <==> exists r :: r in rs && KeyOf(r) == k && r.avg == v
  {
    ProjectMembership(rs, Reading);
  }

  /** The non-null readings, in order: what `mean()` averages. */
  function Present(vs: seq<Option<real>>): (xs: seq<real>)
    ensures |xs| <= |vs|
    ensures forall x :: x in xs <==> Some(x) in vs
    ensures forall x :: multiset(xs)[x] == multiset(vs)[Some(x)]
  {
    if |vs| == 0 then []
    else
      var front := Present(vs[..|vs| - 1]);
      assert vs == vs[..|vs| - 1] + [vs[|vs| - 1]];
      match vs[|vs| - 1]
      case None => front
      case Some(x) => front + [x]
  }

  predicate HasMean(g: (TempKey, seq<Option<real>>)) {
    |Present(g.1)| > 0
  }

  function AvgOf(g: (TempKey, seq<Option<real>>)): TempAvg {
    TempAvg(g.0, Present(g.1))
  }

  /**
   * `groupBy(['country', 'year', 'month']).mean()` followed by
   * `na.drop` on the mean: a group survives when at least one of its
   * readings is present.
   */
  function Averages(rs: seq<TempRecord>): seq<TempAvg> {
    Project(Filter(GroupBy(Keyed(rs)), HasMean), AvgOf)
  }

  /** An average is the group of its key, when that group has a present reading. */
  lemma AveragesAreGroups(rs: seq<TempRecord>, a: TempAvg)
    ensures a in Averages(rs) <==>
      a.key in Keys(Keyed(rs)) && a.readings == Present(Select(Keyed(rs), a.key)) && |a.readings| > 0
  {
    var groups := GroupBy(Keyed(rs));
    var kept := Filter(groups, HasMean);
    ProjectMembership(kept, AvgOf);
    GroupByMembership(Keyed(rs), (a.key, Select(Keyed(rs), a.key)));
    if a in Averages(rs) {
      var g :| g in kept && a == AvgOf(g);
      GroupByMembership(Keyed(rs), g);
    }
  }

  /**
   * A key has an average exactly when some reading filed under it is
   * present; its readings are then all the present readings under that key,
   * in input order, and there is at least one.
   */
  lemma AveragesMembership(rs: seq<TempRecord>, a: TempAvg)
    ensures a in Averages(rs) <==>
      (exists r :: r in rs && KeyOf(r) == a.key && r.avg.Some?) && a.readings == Present(Select(Keyed(rs), a.key))
    ensures a in Averages(rs) ==> |a.readings| > 0
  {
    AveragesAreGroups(rs, a);
    var vs := Select(Keyed(rs), a.key);
    if a in Averages(rs) {
      var x := a.readings[0];
      assert Some(x) in vs;
      KeyedMembership(rs, a.key, Some(x));
      var r :| r in rs && KeyOf(r) == a.key && r.avg == Some(x);
      assert r.avg.Some?;
    }
    if exists r :: r in rs && KeyOf(r) == a.key && r.avg.Some? {
      var r :| r in rs && KeyOf(r) == a.key && r.avg.Some?;
      KeyedMembership(rs, a.key, r.avg);
      KeyMembership(Keyed(rs), a.key, r.avg);
      assert r.avg.value in Present(vs);
    }
  }

  /** The stored row for an average and its matching country. */
  function RowOf(p: (TempAvg, Country)): TempRow {
    var mean := MeanOf(p.0.readings);
    TempRow(p.1.code, p.0.key.year, p.0.key.month, mean, FahrenheitOf(mean))
  }

  function AvgCountry(a: TempAvg): string {
    a.key.country
  }

  function CountryName(c: Country): string {
    c.country
  }

  /** `filter(code != 583)`. */
  predicate NotDuplicateUs(p: (TempAvg, Country)) {
    p.1.code != DuplicateUsCode
  }

  /** `filter(year >= 2002)`. */
  predicate Recent(p: (TempAvg, Country)) {
    p.0.key.year >= FirstYear
  }

  /** `temp_avg.join(countries_cleaning, 'country')`. */
  function Joined(rs: seq<TempRecord>, cs: seq<Country>): seq<(TempAvg, Country)> {
    Join(Averages(rs), cs, AvgCountry, CountryName)
  }

  /** The joined rows that survive both filters. */
  function Kept(rs: seq<TempRecord>, cs: seq<Country>): seq<(TempAvg, Country)> {
    Filter(Filter(Joined(rs, cs), NotDuplicateUs), Recent)
  }

  /**
   * The rows of `temp_avg_ccode`: averages inner-joined to the countries on
   * `country`, without code 583, from 2002 on, projected.
   */
  function ProcessTemp(rs: seq<TempRecord>, cs: seq<Country>): (rows: seq<TempRow>)
    ensures forall row :: row in rows ==> row.code != DuplicateUsCode && row.year >= FirstYear
  {
    ProjectMembership(Kept(rs, cs), RowOf);
    Project(Kept(rs, cs), RowOf)
  }

  /** A pair survives the join and the filters exactly when it matches and passes both tests. */
  lemma KeptMembership(rs: seq<TempRecord>, cs: seq<Country>, a: TempAvg, c: Country)
    ensures (a, c) in Kept(rs, cs) <==>
      a in Averages(rs) && c in cs && a.key.country == c.country && c.code != DuplicateUsCode && a.key.year >= FirstYear
  {
    var j := Joined(rs, cs);
    var f := Filter(j, NotDuplicateUs);
    assert (a, c) in Kept(rs, cs) <==> (a, c) in f && Recent((a, c));
    assert (a, c) in f <==> (a, c) in j && NotDuplicateUs((a, c));
    JoinMembership(Averages(rs), cs, AvgCountry, CountryName);
    assert (a, c) in j <==> a in Averages(rs) && c in cs && a.key.country == c.country;
  }

  /**
   * A row is loaded exactly when it comes from an average and a country
   * with the same name, the country's code is not 583 and the year is 2002
   * or later; an average without a matching country is dropped.
   */
  lemma ProcessTempMembership(rs: seq<TempRecord>, cs: seq<Country>, row: TempRow)
    ensures row in ProcessTemp(rs, cs) <==>
      exists a, c :: a in Averages(rs) && c in cs && a.key.country == c.country
        && c.code != DuplicateUsCode && a.key.year >= FirstYear && row == RowOf((a, c))
  {
    ProjectMembership(Kept(rs, cs), RowOf);
    if row in ProcessTemp(rs, cs) {
      var p :| p in Kept(rs, cs) && row == RowOf(p);
      KeptMembership(rs, cs, p.0, p.1);
      assert p == (p.0, p.1);
    }
    if exists a, c :: a in Averages(rs) && c in cs && a.key.country == c.country
        && c.code != DuplicateUsCode && a.key.year >= FirstYear && row == RowOf((a, c)) {
      var a, c :| a in Averages(rs) && c in cs && a.key.country == c.country
        && c.code != DuplicateUsCode && a.key.year >= FirstYear && row == RowOf((a, c));
      KeptMembership(rs, cs, a, c);
    }
  }

  /** A temperature row carries the code of a country it was joined to. */
  lemma TempCodesFromCountries(rs: seq<TempRecord>, cs: seq<Country>, t: TempRow)
    requires t in ProcessTemp(rs, cs)
    ensures exists c :: c in cs && c.code == t.code
  {
    ProcessTempMembership(rs, cs, t);
    var a, c :| a in Averages(rs) && c in cs && a.key.country == c.country
      && c.code != DuplicateUsCode && a.key.year >= FirstYear && t == RowOf((a, c));
  }

  /**
   * `list(row)` for a `temp_avg_ccode_p` row, after `year` and `month` are
   * cast with `astype('int32')`, which wraps them into 32 bits. The code
   * is not cast, so `int`'s range check applies to it.
   */
  function TempParams(row: TempRow): seq<Value> {
    [Int(row.code), Int(WrapInt32(row.year)), Int(WrapInt32(row.month)), Real(row.avgTemp), Real(row.avgTempF)]
  }

  /** `temp_insert` leaves `temp_id` to the sequence and stores the five values in order after it. */
  lemma TempBinding(row: TempRow, serial: int)
    ensures Bindable(TempInsert, TempParams(row))
    ensures BuildRow(TempDef, TempInsert, TempParams(row), serial) == [Int(serial)] + TempParams(row)
  {
    TempInsertIsPositional();
    var p := TempParams(row);
    PositionalRowInOrder(TempDef, TempInsert, p, serial, 1);
    RowSplit(BuildRow(TempDef, TempInsert, p, serial));
  }

  function TempParamLists(rows: seq<TempRow>): seq<seq<Value>> {
    Project(rows, TempParams)
  }

  /**
   * The cell checks of a stored temperature row: the cast year and month
   * always fit, so only the id and the code can fail, by not fitting `int`.
   */
  lemma TempStoredRowChecks(row: TempRow, serial: int)
    ensures var stored := [Int(serial)] + TempParams(row);
      && RowHasRequired(TempDef, stored)
      && (RowFits(TempDef, stored) <==> InInt32(serial) && InInt32(row.code))
  {
    var stored := [Int(serial)] + TempParams(row);
    assert Fits(stored[0], TempDef.columns[0].sqlType) <==> InInt32(serial);
    assert Fits(stored[1], TempDef.columns[1].sqlType) <==> InInt32(row.code);
    assert Fits(stored[2], TempDef.columns[2].sqlType);
    assert Fits(stored[3], TempDef.columns[3].sqlType);
    assert Fits(stored[4], TempDef.columns[4].sqlType);
    assert Fits(stored[5], TempDef.columns[5].sqlType);
  }

  /** A temperature row is accepted exactly when its id and its country code fit `int`. */
  lemma TempAdmissible(row: TempRow, serial: int)
    ensures Admissible(TempDef, TempInsert, TempParams(row), serial) <==> InInt32(serial) && InInt32(row.code)
  {
    TempInsertIsPositional();
    PositionalWellFormed(TempDef, TempInsert, TempParams(row));
    assert TempDef.columns[0].sqlType == Serial;
    TempBinding(row, serial);
    TempStoredRowChecks(row, serial);
  }

  /** The rows a run of temperature inserts stores: the sequence's value, then the parameters. */
  lemma TempBuilt(rows: seq<TempRow>, serial: int)
    ensures var b := Built(TempDef, TempInsert, TempParamLists(rows), serial);
      |b| == |rows| && forall k :: 0 <= k < |rows| ==> b[k] == [Int(serial + k)] + TempParams(rows[k])
  {
    TempInsertIsPositional();
    BuiltInOrder(TempDef, TempInsert, TempParamLists(rows), serial, 1);
  }

  /** The country code of every row fits `int`, and the ids 1, 2, ... handed out do too. */
  predicate TempLoadable(rows: seq<TempRow>) {
    && |rows| <= Int32Max
    && forall k :: 0 <= k < |rows| ==> InInt32(rows[k].code)
  }

  lemma TempAllAdmissible(rows: seq<TempRow>)
    ensures AllAdmissible(TempDef, TempInsert, TempParamLists(rows), 1) <==> TempLoadable(rows)
  {
    var ps := TempParamLists(rows);
    forall k | 0 <= k < |rows|
      ensures Admissible(TempDef, TempInsert, ps[k], 1 + k) <==> InInt32(1 + k) && InInt32(rows[k].code)
    {
      TempAdmissible(rows[k], 1 + k);
    }
    if |rows| > Int32Max {
      var k := |rows| - 1;
      assert !Admissible(TempDef, TempInsert, ps[k], 1 + k);
    }
  }

  /** Serial ids never clash: the k-th row gets id `serial + k`. */
  lemma TempFreshKeys(rows: seq<TempRow>, serial: int)
    ensures FreshKeys(TempDef, [], Built(TempDef, TempInsert, TempParamLists(rows), serial))
  {
    var b := Built(TempDef, TempInsert, TempParamLists(rows), serial);
    TempBuilt(rows, serial);
    forall k1, k2 | 0 <= k1 < k2 < |b|
      ensures !KeyClash(TempDef, b[k1], b[k2])
    {
      assert b[k1][0] != b[k2][0];
      assert !KeyClash(TempDef, b[k1], b[k2]) by {
        forall i | 0 <= i < |TempDef.columns| && TempDef.columns[i].primaryKey
          ensures i == 0
        {
        }
      }
    }
  }

  /**
   * Loading the temperature rows into the freshly created `temp` table
   * succeeds exactly when their country codes fit `int` and there are no
   * more of them than the serial ids can number; a year or month too wide
   * for `int` is wrapped by the cast, not rejected.
   */
  lemma TempLoadSucceedsIff(db: Db, rows: seq<TempRow>)
    requires "temp" in db && db["temp"] == Table(TempDef, [], 1)
    ensures ExecuteAll(db, TempInsert, TempParamLists(rows)).Success? <==> TempLoadable(rows)
  {
    ExecuteAllSucceedsIff(db, TempInsert, TempParamLists(rows));
    TempAllAdmissible(rows);
    TempFreshKeys(rows, 1);
  }

  /**
   * After a successful load row k is stored with id k + 1 followed by its
   * five values, and no other table changes.
   */
  lemma TempLoadStores(db: Db, rows: seq<TempRow>)
    requires "temp" in db && db["temp"] == Table(TempDef, [], 1)
    requires ExecuteAll(db, TempInsert, TempParamLists(rows)).Success?
    ensures var db1 := ExecuteAll(db, TempInsert, TempParamLists(rows)).value;
      && db1.Keys == db.Keys
      && (forall u :: u in db && u != "temp" ==> db1[u] == db[u])
      && |db1["temp"].rows| == |rows|
      && forall k :: 0 <= k < |rows| ==> db1["temp"].rows[k] == [Int(1 + k)] + TempParams(rows[k])
  {
    var ps := TempParamLists(rows);
    ExecuteAllAppends(db, TempInsert, ps);
    TempBuilt(rows, 1);
    var b := Built(TempDef, TempInsert, ps, 1);
    assert ExecuteAll(db, TempInsert, ps).value["temp"].rows == b;
  }

  /**
   * `year` and `month` are NOT NULL: an insert binding NULL to either
   * fails, with a not-null violation unless the sequence was exhausted or
   * a cell did not fit its column first.
   */
  lemma TempNullYearOrMonthRejected(db: Db, params: seq<Value>)
    requires "temp" in db && db["temp"].def == TempDef
    requires |params| == 5 && (params[1] == Null || params[2] == Null)
    ensures Execute(db, TempInsert, params).Failure?
    ensures Execute(db, TempInsert, params).error in {DatatypeMismatch, NumericOutOfRange, SequenceExhausted, NotNullViolation}
  {
    TempInsertIsPositional();
    var j := if params[1] == Null then 1 else 2;
    NullParamRejected(db, TempInsert, params, j + 1, j);
  }
}
