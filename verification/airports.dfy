/**
 * `process_airports`: airport codes joined to the cleaned ISO list on the
 * two-letter code, then to the cleaned country list on the country name,
 * filtered and loaded into `airports`.
 */
module Airports {
  import opened Wrappers
  import opened Text
  import opened Replacement
  import opened Relational
  import opened Sql
  import opened Store
  import opened Countries

  /** A row of the airport codes file, reduced to the four selected columns. */
  datatype AirportRecord = AirportRecord(ident: string, municipality: Option<string>, isoCountry: string, isoRegion: string)

  /** A row sent to `airports_insert`: `(port, municipality, country_id, region)`. */
  datatype AirportRow = AirportRow(port: string, municipality: Option<string>, countryId: int, region: string)

  /** The country-code the US carries a second time in the I94 list; rows with it are dropped. */
  const DuplicateUsCode: int := 583

  function IsoCountryOf(a: AirportRecord): string {
    a.isoCountry
  }

  function AcodeOf(i: Iso): string {
    i.acode
  }

  function IsoJoinCountry(p: (AirportRecord, Iso)): string {
    p.1.country
  }

  function CountryName(c: Country): string {
    c.country
  }

  /** `filter(code != 583)`. */
  predicate NotDuplicateUs(q: ((AirportRecord, Iso), Country)) {
    q.1.code != DuplicateUsCode
  }

  /** The stored row for an airport and the country it was matched to. */
  function RowOf(q: ((AirportRecord, Iso), Country)): AirportRow {
    AirportRow(q.0.0.ident, q.0.0.municipality, q.1.code, q.0.0.isoRegion)
  }

  /** `codes_iso`: airports inner-joined to the ISO rows on `2acode`. */
  function WithIso(airports: seq<AirportRecord>, isos: seq<Iso>): seq<(AirportRecord, Iso)> {
    Join(airports, isos, IsoCountryOf, AcodeOf)
  }

  /** `codes_countries` after the join on `country` and the filter. */
  function Kept(airports: seq<AirportRecord>, isos: seq<Iso>, cs: seq<Country>): seq<((AirportRecord, Iso), Country)> {
    Filter(Join(WithIso(airports, isos), cs, IsoJoinCountry, CountryName), NotDuplicateUs)
  }

  /** The airport rows loaded, in `(port, municipality, country_id, region)` order. */
  function ProcessAirports(airports: seq<AirportRecord>, isos: seq<Iso>, cs: seq<Country>): (rows: seq<AirportRow>)
    ensures forall row :: row in rows ==> row.countryId != DuplicateUsCode
  {
    ProjectMembership(Kept(airports, isos, cs), RowOf);
    Project(Kept(airports, isos, cs), RowOf)
  }

  /** A triple survives both joins and the filter exactly when its keys match and its code is not 583. */
  lemma KeptMembership(airports: seq<AirportRecord>, isos: seq<Iso>, cs: seq<Country>, a: AirportRecord, i: Iso, c: Country)
    ensures ((a, i), c) in Kept(airports, isos, cs) <==>
      && a in airports && i in isos && c in cs
      && a.isoCountry == i.acode && i.country == c.country && c.code != DuplicateUsCode
  {
    JoinMembership(airports, isos, IsoCountryOf, AcodeOf);
    JoinMembership(WithIso(airports, isos), cs, IsoJoinCountry, CountryName);
    assert (a, i) in WithIso(airports, isos) <==> a in airports && i in isos && a.isoCountry == i.acode;
  }

  /**
   * An airport row is loaded exactly when some airport's two-letter code
   * matches an ISO row whose upper-cased name matches a country whose code
   * is not 583; the row keeps the airport's ident, municipality and region
   * and takes the country's code. An airport matching no ISO row, or an ISO
   * row matching no country, yields nothing.
   */
  lemma ProcessAirportsMembership(airports: seq<AirportRecord>, isos: seq<Iso>, cs: seq<Country>, row: AirportRow)
    ensures row in ProcessAirports(airports, isos, cs) <==>
      exists a, i, c ::
        && a in airports && i in isos && c in cs
        && a.isoCountry == i.acode && i.country == c.country && c.code != DuplicateUsCode
        && row == AirportRow(a.ident, a.municipality, c.code, a.isoRegion)
  {
    ProjectMembership(Kept(airports, isos, cs), RowOf);
    if row in ProcessAirports(airports, isos, cs) {
      var q :| q in Kept(airports, isos, cs) && row == RowOf(q);
      KeptMembership(airports, isos, cs, q.0.0, q.0.1, q.1);
      assert q == ((q.0.0, q.0.1), q.1);
    }
    if exists a, i, c ::
        && a in airports && i in isos && c in cs
        && a.isoCountry == i.acode && i.country == c.country && c.code != DuplicateUsCode
        && row == AirportRow(a.ident, a.municipality, c.code, a.isoRegion) {
      var a, i, c :|
        && a in airports && i in isos && c in cs
        && a.isoCountry == i.acode && i.country == c.country && c.code != DuplicateUsCode
        && row == AirportRow(a.ident, a.municipality, c.code, a.isoRegion);
      KeptMembership(airports, isos, cs, a, i, c);
      assert RowOf(((a, i), c)) == row;
    }
  }

  /** An airport row carries the code of a country it was joined to. */
  lemma AirportCodesFromCountries(airports: seq<AirportRecord>, isos: seq<Iso>, cs: seq<Country>, row: AirportRow)
    requires row in ProcessAirports(airports, isos, cs)
    ensures exists c :: c in cs && c.code == row.countryId
  {
    ProcessAirportsMembership(airports, isos, cs, row);
    var a, i, c :|
      && a in airports && i in isos && c in cs
      && a.isoCountry == i.acode && i.country == c.country && c.code != DuplicateUsCode
      && row == AirportRow(a.ident, a.municipality, c.code, a.isoRegion);
  }

  /**
   * From the raw ISO file: the loaded airports are determined by the raw
   * two-letter codes and the upper-cased raw names alone, whatever the
   * dictionary, so `iso_dict` has no effect on them.
   */
  lemma AirportsIgnoreIsoDict(d: Dict, airports: seq<AirportRecord>, raw: seq<IsoRecord>, cs: seq<Country>, row: AirportRow)
    ensures row in ProcessAirports(airports, CleanIsos(d, raw), cs) <==>
      exists a, r, c ::
        && a in airports && r in raw && c in cs
        && a.isoCountry == r.code && Upper(r.name) == c.country && c.code != DuplicateUsCode
        && row == AirportRow(a.ident, a.municipality, c.code, a.isoRegion)
  {
    var isos := CleanIsos(d, raw);
    ProcessAirportsMembership(airports, isos, cs, row);
    if row in ProcessAirports(airports, isos, cs) {
      var a, i, c :|
        && a in airports && i in isos && c in cs
        && a.isoCountry == i.acode && i.country == c.country && c.code != DuplicateUsCode
        && row == AirportRow(a.ident, a.municipality, c.code, a.isoRegion);
      var r := RawIsoOf(d, raw, i);
    }
    if exists a, r, c ::
        && a in airports && r in raw && c in cs
        && a.isoCountry == r.code && Upper(r.name) == c.country && c.code != DuplicateUsCode
        && row == AirportRow(a.ident, a.municipality, c.code, a.isoRegion) {
      var a, r, c :|
        && a in airports && r in raw && c in cs
        && a.isoCountry == r.code && Upper(r.name) == c.country && c.code != DuplicateUsCode
        && row == AirportRow(a.ident, a.municipality, c.code, a.isoRegion);
      var i := CleanIsoOf(d, raw, r);
    }
  }

  /**
   * With the intended ISO cleaning, the loaded airports are determined by
   * the raw two-letter codes and the upper-cased raw names rewritten by
   * the dictionary.
   */
  lemma AirportsUseIsoDict(d: Dict, airports: seq<AirportRecord>, raw: seq<IsoRecord>, cs: seq<Country>, row: AirportRow)
    ensures row in ProcessAirports(airports, CleanIsosIntended(d, raw), cs) <==>
      exists a, r, c ::
        && a in airports && r in raw && c in cs
        && a.isoCountry == r.code && ReplaceCell(d, Upper(r.name)) == c.country && c.code != DuplicateUsCode
        && row == AirportRow(a.ident, a.municipality, c.code, a.isoRegion)
  {
    var isos := CleanIsosIntended(d, raw);
    ProcessAirportsMembership(airports, isos, cs, row);
    if row in ProcessAirports(airports, isos, cs) {
      var a, i, c :|
        && a in airports && i in isos && c in cs
        && a.isoCountry == i.acode && i.country == c.country && c.code != DuplicateUsCode
        && row == AirportRow(a.ident, a.municipality, c.code, a.isoRegion);
      var r := RawIsoOfIntended(d, raw, i);
    }
    if exists a, r, c ::
        && a in airports && r in raw && c in cs
        && a.isoCountry == r.code && ReplaceCell(d, Upper(r.name)) == c.country && c.code != DuplicateUsCode
        && row == AirportRow(a.ident, a.municipality, c.code, a.isoRegion) {
      var a, r, c :|
        && a in airports && r in raw && c in cs
        && a.isoCountry == r.code && ReplaceCell(d, Upper(r.name)) == c.country && c.code != DuplicateUsCode
        && row == AirportRow(a.ident, a.municipality, c.code, a.isoRegion);
      var i := CleanIsoOfIntended(d, raw, r);
    }
  }

  /** The ISO file's row for Viet Nam, which `iso_dict` means to rename to the I94 list's "VIETNAM". */
  const VietNam: IsoRecord := IsoRecord("Viet Nam", "VN")

  lemma VietNamUpperCased()
    ensures Upper(VietNam.name) == "VIET NAM"
  {
    var upper := Upper(VietNam.name);
    assert forall k :: 0 <= k < |upper| ==> upper[k] == "VIET NAM"[k];
  }

  /**
   * As written, an airport in Viet Nam is never loaded, even though
   * `iso_dict` maps "VIET NAM" to the "VIETNAM" of the country list: the
   * join reads the upper-cased name, which the dictionary never touched.
   */
  lemma VietnamAirportDropped(a: AirportRecord, code: int, row: AirportRow)
    requires a.isoCountry == "VN"
    ensures row !in ProcessAirports([a], CleanIsos(IsoDict, [VietNam]), [Country(code, "VIETNAM")])
  {
    AirportsIgnoreIsoDict(IsoDict, [a], [VietNam], [Country(code, "VIETNAM")], row);
    assert |Upper(VietNam.name)| == 8;
  }

  /** With the intended cleaning, the same airport is loaded under the country's code. */
  lemma VietnamAirportLoadedWhenIntended(a: AirportRecord, code: int)
    requires a.isoCountry == "VN" && code != DuplicateUsCode
    ensures AirportRow(a.ident, a.municipality, code, a.isoRegion) in
      ProcessAirports([a], CleanIsosIntended(IsoDict, [VietNam]), [Country(code, "VIETNAM")])
  {
    VietNamUpperCased();
    IsoDictRenamesVietNam();
    AirportsUseIsoDict(IsoDict, [a], [VietNam], [Country(code, "VIETNAM")], AirportRow(a.ident, a.municipality, code, a.isoRegion));
    assert a in [a] && VietNam in [VietNam] && Country(code, "VIETNAM") in [Country(code, "VIETNAM")];
  }

  /** A possibly missing text cell as a parameter: `None` is bound as NULL. */
  function TextOrNull(s: Option<string>): Value {
    match s
    case None => Null
    case Some(t) => Text(t)
  }

  /** `list(row)` for a `codes_countries` row. */
  function AirportParams(row: AirportRow): seq<Value> {
    [Text(row.port), TextOrNull(row.municipality), Int(row.countryId), Text(row.region)]
  }

  /** `airports_insert` stores the four values in the table's own column order. */
  lemma AirportBinding(row: AirportRow, serial: int)
    ensures Bindable(AirportsInsert, AirportParams(row))
    ensures BuildRow(AirportsDef, AirportsInsert, AirportParams(row), serial) == AirportParams(row)
  {
    AirportsInsertIsPositional();
    PositionalRowInOrder(AirportsDef, AirportsInsert, AirportParams(row), serial, 0);
  }

  function AirportParamLists(rows: seq<AirportRow>): seq<seq<Value>> {
    Project(rows, AirportParams)
  }

  /** The cell checks of a stored airport row: a missing municipality is allowed, the country code must fit `int`. */
  lemma AirportStoredRowChecks(row: AirportRow)
    ensures RowHasRequired(AirportsDef, AirportParams(row))
    ensures RowFits(AirportsDef, AirportParams(row)) <==> InInt32(row.countryId)
  {
    var stored := AirportParams(row);
    assert Fits(stored[1], AirportsDef.columns[1].sqlType);
    assert Fits(stored[2], AirportsDef.columns[2].sqlType) <==> InInt32(row.countryId);
  }

  /** An airport row is accepted exactly when its country code fits `int`. */
  lemma AirportAdmissible(row: AirportRow, serial: int)
    ensures Admissible(AirportsDef, AirportsInsert, AirportParams(row), serial) <==> InInt32(row.countryId)
  {
    AirportsInsertIsPositional();
    PositionalWellFormed(AirportsDef, AirportsInsert, AirportParams(row));
    AirportBinding(row, serial);
    AirportStoredRowChecks(row);
  }

  /** Two stored airport rows clash exactly when their port identifiers are equal. */
  lemma AirportKeyClash(r1: AirportRow, r2: AirportRow)
    ensures KeyClash(AirportsDef, AirportParams(r1), AirportParams(r2)) <==> r1.port == r2.port
  {
    if r1.port == r2.port {
      assert AirportsDef.columns[0].primaryKey;
    }
  }

  /** The country codes fit `int` and no port identifier repeats. */
  predicate AirportsLoadable(rows: seq<AirportRow>) {
    && (forall k :: 0 <= k < |rows| ==> InInt32(rows[k].countryId))
    && (forall k1, k2 :: 0 <= k1 < k2 < |rows| ==> rows[k1].port != rows[k2].port)
  }

  /** The rows a run of airport inserts stores are the parameter lists themselves. */
  lemma AirportsBuilt(rows: seq<AirportRow>, serial: int)
    ensures Built(AirportsDef, AirportsInsert, AirportParamLists(rows), serial) == Project(rows, AirportParams)
  {
    var ps := AirportParamLists(rows);
    var b := Built(AirportsDef, AirportsInsert, ps, serial);
    forall k | 0 <= k < |rows|
      ensures b[k] == AirportParams(rows[k])
    {
      assert ps[k] == AirportParams(rows[k]);
      AirportBinding(rows[k], serial + k);
      BuiltAt(AirportsDef, AirportsInsert, ps, serial, k);
    }
  }

  lemma AirportsAdmissible(rows: seq<AirportRow>, serial: int)
    ensures AllAdmissible(AirportsDef, AirportsInsert, AirportParamLists(rows), serial) <==>
      forall k :: 0 <= k < |rows| ==> InInt32(rows[k].countryId)
  {
    var ps := AirportParamLists(rows);
    forall k | 0 <= k < |rows|
      ensures Admissible(AirportsDef, AirportsInsert, ps[k], serial + k) <==> InInt32(rows[k].countryId)
    {
      AirportAdmissible(rows[k], serial + k);
    }
  }

  lemma AirportsFreshKeys(rows: seq<AirportRow>)
    ensures FreshKeys(AirportsDef, [], Project(rows, AirportParams)) <==>
      forall k1, k2 :: 0 <= k1 < k2 < |rows| ==> rows[k1].port != rows[k2].port
  {
    var b := Project(rows, AirportParams);
    forall k1, k2 | 0 <= k1 < k2 < |rows|
      ensures KeyClash(AirportsDef, b[k1], b[k2]) <==> rows[k1].port == rows[k2].port
    {
      AirportKeyClash(rows[k1], rows[k2]);
    }
  }

  /**
   * Loading the airport rows into an empty `airports` table succeeds
   * exactly when every country code fits `int` and no port is listed twice.
   */
  lemma AirportsLoadSucceedsIff(db: Db, rows: seq<AirportRow>)
    requires "airports" in db && db["airports"].def == AirportsDef && db["airports"].rows == []
    ensures ExecuteAll(db, AirportsInsert, AirportParamLists(rows)).Success? <==> AirportsLoadable(rows)
  {
    var t := db["airports"];
    ExecuteAllSucceedsIff(db, AirportsInsert, AirportParamLists(rows));
    AirportsBuilt(rows, t.nextSerial);
    AirportsAdmissible(rows, t.nextSerial);
    AirportsFreshKeys(rows);
  }

  /**
   * After a successful load the table holds the rows in order, with a
   * missing municipality stored as NULL, and no other table changes.
   */
  lemma AirportsLoadStores(db: Db, rows: seq<AirportRow>)
    requires "airports" in db && db["airports"].def == AirportsDef && db["airports"].rows == []
    requires ExecuteAll(db, AirportsInsert, AirportParamLists(rows)).Success?
    ensures var db1 := ExecuteAll(db, AirportsInsert, AirportParamLists(rows)).value;
      && db1.Keys == db.Keys
      && (forall u :: u in db && u != "airports" ==> db1[u] == db[u])
      && db1["airports"].rows == Project(rows, AirportParams)
  {
    ExecuteAllAppends(db, AirportsInsert, AirportParamLists(rows));
    AirportsBuilt(rows, db["airports"].nextSerial);
  }

  /**
   * `port` is the primary key: an insert succeeds exactly when its row is
   * admissible and no stored row has the same port, so a repeated port is
   * rejected.
   */
  lemma AirportInsertSucceedsIff(db: Db, params: seq<Value>)
    requires "airports" in db && db["airports"].def == AirportsDef && |params| == 4
    ensures Execute(db, AirportsInsert, params).Success? <==>
      && Admissible(AirportsDef, AirportsInsert, params, db["airports"].nextSerial)
      && forall prior :: prior in db["airports"].rows && |prior| > 0 ==> prior[0] != params[0]
  {
    var t := db["airports"];
    AirportsInsertIsPositional();
    PositionalRowInOrder(AirportsDef, AirportsInsert, params, t.nextSerial, 0);
    var row := BuildRow(AirportsDef, AirportsInsert, params, t.nextSerial);
    assert row == params;
    forall prior | prior in t.rows
      ensures KeyClash(AirportsDef, prior, row) <==> |prior| > 0 && prior[0] == params[0]
    {
      FirstColumnKeyClash(AirportsDef, prior, row);
    }
  }
}
