/**
 * `process_countries`: the I94 country list, cleaned with `countries_dict`
 * and loaded into `countries`, and the ISO 3166 two-letter code list,
 * cleaned with `iso_dict` and kept for the airports join.
 */
module Countries {
  import opened Wrappers
  import opened Text
  import opened Replacement
  import opened Relational
  import opened Sql
  import opened Store

  /** A row of countries.csv, reduced to the two columns the pipeline selects. */
  datatype CountryRecord = CountryRecord(country: string, code: int)

  /** A row of `countries_cleaning`, in its `(code, country)` column order. */
  datatype Country = Country(code: int, country: string)

  /** A row of iso_2alpha.csv. */
  datatype IsoRecord = IsoRecord(name: string, code: string)

  /**
   * A row of `iso_cleaning`: the (replaced) `Name`, the upper-cased name
   * computed before the replacement and renamed `country`, and `2acode`.
   */
  datatype Iso = Iso(name: string, country: string, acode: string)

  /** Clean one countries.csv row: `countries_dict` on `country`, then reorder. */
  function CleanCountry(r: CountryRecord): Country {
    Country(r.code, ReplaceCell(CountriesDict, r.country))
  }

  /** `countries_cleaning`: every row cleaned, none dropped, order kept. */
  function CleanCountries(rs: seq<CountryRecord>): (cs: seq<Country>)
    ensures |cs| == |rs|
    ensures forall i :: 0 <= i < |rs| ==> cs[i].code == rs[i].code
    ensures forall i :: 0 <= i < |rs| && rs[i].country in CountriesDict ==> cs[i].country == CountriesDict[rs[i].country]
    ensures forall i :: 0 <= i < |rs| ==> cs[i].country !in CountriesDict
    ensures forall i :: 0 <= i < |rs| && rs[i].country !in CountriesDict ==> cs[i].country == rs[i].country
  {
    CountriesDictHasNoChains();
    seq(|rs|, i requires 0 <= i < |rs| =>
      ReplaceChangesOnlyKeys(CountriesDict, rs[i].country);
      CleanCountry(rs[i]))
  }

  /** A cleaned country carries the code of some record of the raw list. */
  lemma CleanCountryCodes(rs: seq<CountryRecord>, c: Country)
    requires c in CleanCountries(rs)
    ensures exists r :: r in rs && r.code == c.code
  {
    var cs := CleanCountries(rs);
    var i :| 0 <= i < |cs| && cs[i] == c;
    assert rs[i] in rs;
  }

  /** Cleaning the country list a second time changes nothing. */
  lemma CleanCountriesIdempotent(rs: seq<CountryRecord>)
    ensures var cs := CleanCountries(rs);
      CleanCountries(seq(|cs|, i requires 0 <= i < |cs| => CountryRecord(cs[i].country, cs[i].code))) == cs
  {
    CountriesDictHasNoChains();
    var cs := CleanCountries(rs);
    var again := seq(|cs|, i requires 0 <= i < |cs| => CountryRecord(cs[i].country, cs[i].code));
    forall i | 0 <= i < |cs|
      ensures CleanCountries(again)[i] == cs[i]
    {
      ReplaceIdempotent(CountriesDict, rs[i].country);
    }
  }

  /** Clean one ISO row with a given dictionary. */
  function CleanIsoWith(d: Dict, r: IsoRecord): (i: Iso) {
    Iso(ReplaceCell(d, r.name), Upper(r.name), r.code)
  }

  /**
   * `iso_cleaning`, with the dictionary as a parameter (the pipeline passes
   * `iso_dict`): whatever the dictionary, each row's join columns are its
   * upper-cased raw name and its raw code.
   */
  function CleanIsos(d: Dict, rs: seq<IsoRecord>): (isos: seq<Iso>)
    ensures |isos| == |rs|
    ensures forall i :: 0 <= i < |rs| ==> isos[i].country == Upper(rs[i].name) && isos[i].acode == rs[i].code
  {
    seq(|rs|, i requires 0 <= i < |rs| => CleanIsoWith(d, rs[i]))
  }

  /** Every cleaned ISO row comes from a raw row with the same code and upper-cased name. */
  lemma RawIsoOf(d: Dict, raw: seq<IsoRecord>, i: Iso) returns (r: IsoRecord)
    requires i in CleanIsos(d, raw)
    ensures r in raw && i.country == Upper(r.name) && i.acode == r.code
  {
    var k :| 0 <= k < |raw| && CleanIsos(d, raw)[k] == i;
    r := raw[k];
  }

  /** Every raw ISO row yields a cleaned row with its code and upper-cased name. */
  lemma CleanIsoOf(d: Dict, raw: seq<IsoRecord>, r: IsoRecord) returns (i: Iso)
    requires r in raw
    ensures i in CleanIsos(d, raw) && i.country == Upper(r.name) && i.acode == r.code
  {
    var k :| 0 <= k < |raw| && raw[k] == r;
    i := CleanIsos(d, raw)[k];
  }

  /**
   * The join columns of an ISO row, `country` and `2acode`, are the
   * upper-cased raw name and the raw code whatever dictionary is applied:
   * the replacement only reaches `Name`, which nothing downstream reads.
   */
  lemma IsoJoinKeysIgnoreDict(d: Dict, r: IsoRecord)
    ensures CleanIsoWith(d, r).country == Upper(r.name)
    ensures CleanIsoWith(d, r).acode == r.code
    ensures IsUpperCase(CleanIsoWith(d, r).country)
    ensures r.name !in d ==> CleanIsoWith(d, r).name == r.name
  {
  }

  /**
   * `iso_cleaning` as evidently intended: `iso_dict` rewrites the
   * upper-cased name, the column the airport join reads.
   */
  function CleanIsoIntended(d: Dict, r: IsoRecord): Iso {
    Iso(r.name, ReplaceCell(d, Upper(r.name)), r.code)
  }

  /** Every row cleaned the intended way, none dropped, order kept. */
  function CleanIsosIntended(d: Dict, rs: seq<IsoRecord>): (isos: seq<Iso>)
    ensures |isos| == |rs|
    ensures forall i :: 0 <= i < |rs| ==> isos[i].country == ReplaceCell(d, Upper(rs[i].name)) && isos[i].acode == rs[i].code
  {
    seq(|rs|, i requires 0 <= i < |rs| => CleanIsoIntended(d, rs[i]))
  }

  /** Cleaned the intended way, every ISO row comes from a raw row with the same code and rewritten upper-cased name. */
  lemma RawIsoOfIntended(d: Dict, raw: seq<IsoRecord>, i: Iso) returns (r: IsoRecord)
    requires i in CleanIsosIntended(d, raw)
    ensures r in raw && i.country == ReplaceCell(d, Upper(r.name)) && i.acode == r.code
  {
    var k :| 0 <= k < |raw| && CleanIsosIntended(d, raw)[k] == i;
    r := raw[k];
  }

  /** Cleaned the intended way, every raw ISO row yields a row with its code and rewritten upper-cased name. */
  lemma CleanIsoOfIntended(d: Dict, raw: seq<IsoRecord>, r: IsoRecord) returns (i: Iso)
    requires r in raw
    ensures i in CleanIsosIntended(d, raw) && i.country == ReplaceCell(d, Upper(r.name)) && i.acode == r.code
  {
    var k :| 0 <= k < |raw| && raw[k] == r;
    i := CleanIsosIntended(d, raw)[k];
  }

  /** `list(row)` for a `countries_cleaning` row: `[code, country]`. */
  function CountryParams(c: Country): seq<Value> {
    [Int(c.code), Text(c.country)]
  }

  function CountryParamLists(cs: seq<Country>): (ps: seq<seq<Value>>)
    ensures |ps| == |cs|
    ensures forall k :: 0 <= k < |cs| ==> ps[k] == CountryParams(cs[k])
  {
    seq(|cs|, k requires 0 <= k < |cs| => CountryParams(cs[k]))
  }

  /** `countries_insert` stores the parameters in the table's own column order. */
  lemma CountryBinding(c: Country, serial: int)
    ensures Bindable(CountriesInsert, CountryParams(c))
    ensures BuildRow(CountriesDef, CountriesInsert, CountryParams(c), serial) == [Int(c.code), Text(c.country)]
  {
    InsertsArePositional();
  }

  /** A country row is accepted exactly when its code fits PostgreSQL's `int`. */
  lemma CountryAdmissible(c: Country, serial: int)
    ensures Admissible(CountriesDef, CountriesInsert, CountryParams(c), serial) <==> InInt32(c.code)
  {
    CountriesInsertIsPositional();
    PositionalWellFormed(CountriesDef, CountriesInsert, CountryParams(c));
    CountryBinding(c, serial);
    var row := BuildRow(CountriesDef, CountriesInsert, CountryParams(c), serial);
    assert RowFits(CountriesDef, row) <==> InInt32(c.code) by {
      assert Fits(row[0], CountriesDef.columns[0].sqlType) <==> InInt32(c.code);
    }
  }

  /** Two stored country rows clash exactly when their codes are equal. */
  lemma CountryKeyClash(c1: Country, c2: Country)
    ensures KeyClash(CountriesDef, CountryParams(c1), CountryParams(c2)) <==> c1.code == c2.code
  {
    if c1.code == c2.code {
      assert CountriesDef.columns[0].primaryKey;
    }
  }

  /** The codes fit `int` and no code repeats. */
  predicate CountriesLoadable(cs: seq<Country>) {
    && (forall k :: 0 <= k < |cs| ==> InInt32(cs[k].code))
    && (forall k1, k2 :: 0 <= k1 < k2 < |cs| ==> cs[k1].code != cs[k2].code)
  }

  /** The rows a run of country inserts stores are the parameter lists themselves. */
  lemma CountriesBuilt(cs: seq<Country>, serial: int)
    ensures Built(CountriesDef, CountriesInsert, CountryParamLists(cs), serial) == Project(cs, CountryParams)
  {
    var ps := CountryParamLists(cs);
    var b := Built(CountriesDef, CountriesInsert, ps, serial);
    forall k | 0 <= k < |cs|
      ensures b[k] == CountryParams(cs[k])
    {
      assert ps[k] == CountryParams(cs[k]);
      CountryBinding(cs[k], serial + k);
      BuiltAt(CountriesDef, CountriesInsert, ps, serial, k);
    }
  }

  lemma CountriesAdmissible(cs: seq<Country>, serial: int)
    ensures AllAdmissible(CountriesDef, CountriesInsert, CountryParamLists(cs), serial) <==>
      forall k :: 0 <= k < |cs| ==> InInt32(cs[k].code)
  {
    var ps := CountryParamLists(cs);
    forall k | 0 <= k < |cs|
      ensures Admissible(CountriesDef, CountriesInsert, ps[k], serial + k) <==> InInt32(cs[k].code)
    {
      CountryAdmissible(cs[k], serial + k);
    }
  }

  lemma CountriesFreshKeys(cs: seq<Country>)
    ensures FreshKeys(CountriesDef, [], Project(cs, CountryParams)) <==>
      forall k1, k2 :: 0 <= k1 < k2 < |cs| ==> cs[k1].code != cs[k2].code
  {
    var b := Project(cs, CountryParams);
    forall k1, k2 | 0 <= k1 < k2 < |cs|
      ensures KeyClash(CountriesDef, b[k1], b[k2]) <==> cs[k1].code == cs[k2].code
    {
      CountryKeyClash(cs[k1], cs[k2]);
    }
  }

  /**
   * Loading the cleaned countries into an empty `countries` table succeeds
   * exactly when the codes fit `int` and are pairwise distinct (the primary
   * key).
   */
  lemma CountriesLoadSucceedsIff(db: Db, cs: seq<Country>)
    requires "countries" in db && db["countries"].def == CountriesDef && db["countries"].rows == []
    ensures ExecuteAll(db, CountriesInsert, CountryParamLists(cs)).Success? <==> CountriesLoadable(cs)
  {
    var t := db["countries"];
    ExecuteAllSucceedsIff(db, CountriesInsert, CountryParamLists(cs));
    CountriesBuilt(cs, t.nextSerial);
    CountriesAdmissible(cs, t.nextSerial);
    CountriesFreshKeys(cs);
  }

  /**
   * After a successful load the table holds one `(code, country)` row per
   * input row, in order, and no other table changes.
   */
  lemma CountriesLoadStores(db: Db, cs: seq<Country>)
    requires "countries" in db && db["countries"].def == CountriesDef && db["countries"].rows == []
    requires ExecuteAll(db, CountriesInsert, CountryParamLists(cs)).Success?
    ensures var db1 := ExecuteAll(db, CountriesInsert, CountryParamLists(cs)).value;
      && db1.Keys == db.Keys
      && (forall u :: u in db && u != "countries" ==> db1[u] == db[u])
      && db1["countries"].rows == Project(cs, CountryParams)
  {
    ExecuteAllAppends(db, CountriesInsert, CountryParamLists(cs));
    CountriesBuilt(cs, db["countries"].nextSerial);
  }

  /**
   * `country_id` is the primary key: an insert succeeds exactly when its
   * row is admissible and no stored row has the same code, so a repeated
   * code is rejected.
   */
  lemma CountryInsertSucceedsIff(db: Db, params: seq<Value>)
    requires "countries" in db && db["countries"].def == CountriesDef && |params| == 2
    ensures Execute(db, CountriesInsert, params).Success? <==>
      && Admissible(CountriesDef, CountriesInsert, params, db["countries"].nextSerial)
      && forall prior :: prior in db["countries"].rows && |prior| > 0 ==> prior[0] != params[0]
  {
    var t := db["countries"];
    CountriesInsertIsPositional();
    PositionalRowInOrder(CountriesDef, CountriesInsert, params, t.nextSerial, 0);
    var row := BuildRow(CountriesDef, CountriesInsert, params, t.nextSerial);
    assert row == params;
    forall prior | prior in t.rows
      ensures KeyClash(CountriesDef, prior, row) <==> |prior| > 0 && prior[0] == params[0]
    {
      FirstColumnKeyClash(CountriesDef, prior, row);
    }
  }
}
