/**
 * `process_immigration`: I94 records counted per (year, month, residence,
 * port, visa) and loaded into `arrivals` through `arrivals_insert`.
 */
module Arrivals {
  import opened Relational
  import opened Sql
  import opened Store

  /** An I94 record, reduced to the five grouping columns. */
  datatype I94Record = I94Record(year: int, month: int, res: int, port: string, visa: int)

  /** The grouping key `(i94yr, i94mon, i94res, i94port, i94visa)`. */
  datatype ArrivalKey = ArrivalKey(year: int, month: int, res: int, port: string, visa: int)

  /**
   * A row of `immigration_grouped` after the reorder:
   * `(country_id, visa_type, count, year, month, port)`.
   */
  datatype ArrivalRow = ArrivalRow(countryId: int, visaType: int, count: int, year: int, month: int, port: string)

  function KeyOf(r: I94Record): ArrivalKey {
    ArrivalKey(r.year, r.month, r.res, r.port, r.visa)
  }

  function Tagged(r: I94Record): (ArrivalKey, I94Record) {
    (KeyOf(r), r)
  }

  function Keyed(rs: seq<I94Record>): seq<(ArrivalKey, I94Record)> {
    Project(rs, Tagged)
  }

  /** The key a row was grouped under, read back from its columns. */
  function RowKey(row: ArrivalRow): ArrivalKey {
    ArrivalKey(row.year, row.month, row.countryId, row.port, row.visaType)
  }

  /** One group, counted and reordered; `i94res` becomes `country_id` unchanged. */
  function RowOf(g: (ArrivalKey, seq<I94Record>)): ArrivalRow {
    ArrivalRow(g.0.res, g.0.visa, |g.1|, g.0.year, g.0.month, g.0.port)
  }

  /** The number of records filed under key `k`. */
  function Occurrences(rs: seq<I94Record>, k: ArrivalKey): nat {
    if |rs| == 0 then 0
    else Occurrences(rs[..|rs| - 1], k) + (if KeyOf(rs[|rs| - 1]) == k then 1 else 0)
  }

  /** `groupBy([...]).count()` then the reorder. */
  function ProcessImmigration(rs: seq<I94Record>): (rows: seq<ArrivalRow>)
    ensures forall row :: row in rows ==> row.count >= 1
  {
    var groups := GroupBy(Keyed(rs));
    ProjectMembership(groups, RowOf);
    Project(groups, RowOf)
  }

  /** The keys of the keyed records are the records' keys, in order. */
  lemma KeysOfKeyed(rs: seq<I94Record>)
    ensures Keys(Keyed(rs)) == Project(rs, KeyOf)
  {
  }

  /** Counting a key in the key column counts the records with that key. */
  lemma {:induction false} OccurrencesAreMultiplicity(rs: seq<I94Record>, k: ArrivalKey)
    ensures multiset(Project(rs, KeyOf))[k] == Occurrences(rs, k)
  {
    if |rs| > 0 {
      var front := rs[..|rs| - 1];
      OccurrencesAreMultiplicity(front, k);
      assert Project(rs, KeyOf) == Project(front, KeyOf) + [KeyOf(rs[|rs| - 1])];
    }
  }

  /** No two rows carry the same key. */
  lemma OneRowPerKey(rs: seq<I94Record>)
    ensures var rows := ProcessImmigration(rs);
      forall i, j :: 0 <= i < j < |rows| ==> RowKey(rows[i]) != RowKey(rows[j])
  {
    var groups := GroupBy(Keyed(rs));
    var rows := ProcessImmigration(rs);
    forall i, j | 0 <= i < j < |rows|
      ensures RowKey(rows[i]) != RowKey(rows[j])
    {
      assert RowKey(rows[i]) == Keys(groups)[i];
      assert RowKey(rows[j]) == Keys(groups)[j];
    }
  }

  /**
   * There is a row for key `k` exactly when some record has key `k`, and
   * that row's count is the number of such records.
   */
  lemma RowsAreCounts(rs: seq<I94Record>, row: ArrivalRow)
    ensures row in ProcessImmigration(rs) <==>
      Occurrences(rs, RowKey(row)) >= 1 && row.count == Occurrences(rs, RowKey(row))
  {
    var groups := GroupBy(Keyed(rs));
    var k := RowKey(row);
    ProjectMembership(groups, RowOf);
    KeysOfKeyed(rs);
    OccurrencesAreMultiplicity(rs, k);
    var g := (k, Select(Keyed(rs), k));
    GroupByMembership(Keyed(rs), g);
    if row in ProcessImmigration(rs) {
      var h :| h in groups && row == RowOf(h);
      GroupByMembership(Keyed(rs), h);
      assert h == g;
    }
    if Occurrences(rs, k) >= 1 && row.count == Occurrences(rs, k) {
      assert RowOf(g) == row;
    }
  }

  /** The counts of all rows. */
  function TotalCount(rows: seq<ArrivalRow>): int {
    if |rows| == 0 then 0 else TotalCount(rows[..|rows| - 1]) + rows[|rows| - 1].count
  }

  lemma {:induction false} TotalCountOfGroups(groups: seq<(ArrivalKey, seq<I94Record>)>)
    ensures TotalCount(Project(groups, RowOf)) == Total(groups)
  {
    if |groups| > 0 {
      var front := groups[..|groups| - 1];
      TotalCountOfGroups(front);
      assert Project(groups, RowOf)[..|groups| - 1] == Project(front, RowOf);
    }
  }

  /** Every record is counted exactly once: the counts add up to the number of records. */
  lemma CountsSumToInput(rs: seq<I94Record>)
    ensures TotalCount(ProcessImmigration(rs)) == |rs|
  {
    TotalCountOfGroups(GroupBy(Keyed(rs)));
    GroupByPartitions(Keyed(rs));
  }

  /**
   * `list(row)` for a row of `immigration_grouped_p`, in its column order,
   * after the five `astype('int32')` casts: every integer arrives wrapped
   * into 32 bits, whatever its size in the grouped frame.
   */
  function ArrivalParams(row: ArrivalRow): seq<Value> {
    [Int(WrapInt32(row.countryId)), Int(WrapInt32(row.visaType)), Int(WrapInt32(row.count)),
     Int(WrapInt32(row.year)), Int(WrapInt32(row.month)), Text(row.port)]
  }

  function ArrivalParamLists(rows: seq<ArrivalRow>): seq<seq<Value>> {
    Project(rows, ArrivalParams)
  }

  /** The row with its year and month exchanged. */
  function Swapped(row: ArrivalRow): ArrivalRow {
    row.(year := row.month, month := row.year)
  }

  /** The row whose values `ins` stores after the serial id, for the insert as written and as intended. */
  function StoredAs(ins: Insert, row: ArrivalRow): ArrivalRow {
    if ins == IntendedArrivalsInsert then row else Swapped(row)
  }

  /**
   * For each column of the table after `arrival_id`, the position of its
   * value among the parameters: the as-written insert takes `year` from
   * the fifth parameter and `month` from the fourth.
   */
  function Order(ins: Insert): seq<nat> {
    if ins == IntendedArrivalsInsert then [0, 1, 2, 3, 4, 5] else [0, 1, 2, 4, 3, 5]
  }

  /** Both inserts list every non-serial column once, in the places `Order` gives. */
  lemma ArrivalsLayout(ins: Insert)
    requires ins == ArrivalsInsert || ins == IntendedArrivalsInsert
    ensures PositionalInsert(ins, ArrivalsDef)
    ensures |ArrivalsDef.columns| == 1 + |ins.columns| && ArrivalsDef.columns[0].sqlType == Serial
    ensures |Order(ins)| == |ins.columns|
    ensures forall j :: 0 <= j < |Order(ins)| ==>
      Order(ins)[j] < |ins.columns| && ArrivalsDef.columns[1 + j].name == ins.columns[Order(ins)[j]]
  {
    ArrivalsInsertIsPositional();
    IntendedArrivalsInsertIsPositional();
  }

  lemma PermuteArrivalParams(ins: Insert, row: ArrivalRow)
    ensures Permute(ArrivalParams(row), Order(ins)) == ArrivalParams(StoredAs(ins, row))
  {
  }

  /** Both inserts bind every row, and store it after its serial id as `StoredAs` says. */
  lemma ArrivalsStores(ins: Insert, row: ArrivalRow, serial: int)
    requires ins == ArrivalsInsert || ins == IntendedArrivalsInsert
    ensures Bindable(ins, ArrivalParams(row))
    ensures BuildRow(ArrivalsDef, ins, ArrivalParams(row), serial) == [Int(serial)] + ArrivalParams(StoredAs(ins, row))
  {
    ArrivalsLayout(ins);
    PositionalRowPermuted(ArrivalsDef, ins, ArrivalParams(row), serial, Order(ins));
    PermuteArrivalParams(ins, row);
  }

  /**
   * `arrivals_insert` as written names `month` fourth and `year` fifth
   * while the row carries year fourth and month fifth, so the stored
   * `year` column receives the row's month and the stored `month` column
   * its year.
   */
  lemma ArrivalsBindingSwapsYearAndMonth(row: ArrivalRow, serial: int)
    ensures Bindable(ArrivalsInsert, ArrivalParams(row))
    ensures ArrivalsDef.columns[4].name == "year" && ArrivalsDef.columns[5].name == "month"
    ensures var stored := BuildRow(ArrivalsDef, ArrivalsInsert, ArrivalParams(row), serial);
      |stored| == 7 && stored[4] == Int(WrapInt32(row.month)) && stored[5] == Int(WrapInt32(row.year))
  {
    ArrivalsStores(ArrivalsInsert, row, serial);
  }

  /**
   * A group counted 2^31 times is stored with count -2^31 under either
   * insert: the cast wraps the count instead of rejecting it.
   */
  lemma CountWrapsWhenStored(ins: Insert, row: ArrivalRow, serial: int)
    requires ins == ArrivalsInsert || ins == IntendedArrivalsInsert
    requires row.count == 0x8000_0000
    ensures Bindable(ins, ArrivalParams(row))
    ensures BuildRow(ArrivalsDef, ins, ArrivalParams(row), serial)[3] == Int(-0x8000_0000)
  {
    ArrivalsStores(ins, row, serial);
    WrapInt32Unique(row.count, -0x8000_0000);
  }

  /** With `year` listed before `month`, every value lands in its own column after the serial id. */
  lemma IntendedArrivalsBinding(row: ArrivalRow, serial: int)
    ensures Bindable(IntendedArrivalsInsert, ArrivalParams(row))
    ensures BuildRow(ArrivalsDef, IntendedArrivalsInsert, ArrivalParams(row), serial) == [Int(serial)] + ArrivalParams(row)
  {
    ArrivalsStores(IntendedArrivalsInsert, row, serial);
  }

  /**
   * The cell checks of a stored arrivals row: the cast integers always fit
   * `int`, so only the serial id can fail.
   */
  lemma ArrivalStoredRowChecks(row: ArrivalRow, serial: int)
    ensures var stored := [Int(serial)] + ArrivalParams(row);
      && RowHasRequired(ArrivalsDef, stored)
      && (RowFits(ArrivalsDef, stored) <==> InInt32(serial))
  {
    var stored := [Int(serial)] + ArrivalParams(row);
    assert Fits(stored[0], ArrivalsDef.columns[0].sqlType) <==> InInt32(serial);
    assert forall i :: 1 <= i < 7 ==> Fits(stored[i], ArrivalsDef.columns[i].sqlType);
  }

  /** Under either insert, a row is accepted exactly when its id fits `int`, whatever its values. */
  lemma ArrivalAdmissible(ins: Insert, row: ArrivalRow, serial: int)
    requires ins == ArrivalsInsert || ins == IntendedArrivalsInsert
    ensures Admissible(ArrivalsDef, ins, ArrivalParams(row), serial) <==> InInt32(serial)
  {
    ArrivalsInsertIsPositional();
    IntendedArrivalsInsertIsPositional();
    PositionalWellFormed(ArrivalsDef, ins, ArrivalParams(row));
    assert ArrivalsDef.columns[0].sqlType == Serial;
    ArrivalsStores(ins, row, serial);
    ArrivalStoredRowChecks(StoredAs(ins, row), serial);
  }

  /** The rows a run of arrivals inserts stores: the sequence's value, then the row as `StoredAs` says. */
  lemma ArrivalsBuilt(ins: Insert, rows: seq<ArrivalRow>, serial: int)
    requires ins == ArrivalsInsert || ins == IntendedArrivalsInsert
    ensures var b := Built(ArrivalsDef, ins, ArrivalParamLists(rows), serial);
      |b| == |rows| && forall k :: 0 <= k < |rows| ==> b[k] == [Int(serial + k)] + ArrivalParams(StoredAs(ins, rows[k]))
  {
    var ps := ArrivalParamLists(rows);
    ArrivalsLayout(ins);
    BuiltPermuted(ArrivalsDef, ins, ps, serial, Order(ins));
    forall k | 0 <= k < |rows|
      ensures Permute(ps[k], Order(ins)) == ArrivalParams(StoredAs(ins, rows[k]))
    {
      PermuteArrivalParams(ins, rows[k]);
    }
  }

  /** The ids 1, 2, ... handed out fit `int`; the cast integers always do. */
  predicate ArrivalsLoadable(rows: seq<ArrivalRow>) {
    |rows| <= Int32Max
  }

  lemma ArrivalsAllAdmissible(ins: Insert, rows: seq<ArrivalRow>)
    requires ins == ArrivalsInsert || ins == IntendedArrivalsInsert
    ensures AllAdmissible(ArrivalsDef, ins, ArrivalParamLists(rows), 1) <==> ArrivalsLoadable(rows)
  {
    var ps := ArrivalParamLists(rows);
    forall k | 0 <= k < |rows|
      ensures Admissible(ArrivalsDef, ins, ps[k], 1 + k) <==> InInt32(1 + k)
    {
      ArrivalAdmissible(ins, rows[k], 1 + k);
    }
    if |rows| > Int32Max {
      var k := |rows| - 1;
      assert !Admissible(ArrivalsDef, ins, ps[k], 1 + k);
    }
  }

  /** Serial ids never clash: the k-th row gets id `serial + k`. */
  lemma ArrivalsFreshKeys(ins: Insert, rows: seq<ArrivalRow>, serial: int)
    requires ins == ArrivalsInsert || ins == IntendedArrivalsInsert
    ensures FreshKeys(ArrivalsDef, [], Built(ArrivalsDef, ins, ArrivalParamLists(rows), serial))
  {
    var b := Built(ArrivalsDef, ins, ArrivalParamLists(rows), serial);
    ArrivalsBuilt(ins, rows, serial);
    forall k1, k2 | 0 <= k1 < k2 < |b|
      ensures !KeyClash(ArrivalsDef, b[k1], b[k2])
    {
      assert b[k1][0] != b[k2][0];
      assert !KeyClash(ArrivalsDef, b[k1], b[k2]) by {
        forall i | 0 <= i < |ArrivalsDef.columns| && ArrivalsDef.columns[i].primaryKey
          ensures i == 0
        {
        }
      }
    }
  }

  /**
   * Loading the counted rows into the freshly created `arrivals` table
   * succeeds, under either insert, exactly when there are no more of them
   * than the serial ids can number: a count or code too wide for `int` is
   * wrapped by the cast, not rejected.
   */
  lemma ArrivalsLoadSucceedsIff(db: Db, ins: Insert, rows: seq<ArrivalRow>)
    requires ins == ArrivalsInsert || ins == IntendedArrivalsInsert
    requires "arrivals" in db && db["arrivals"] == Table(ArrivalsDef, [], 1)
    ensures ExecuteAll(db, ins, ArrivalParamLists(rows)).Success? <==> ArrivalsLoadable(rows)
  {
    ExecuteAllSucceedsIff(db, ins, ArrivalParamLists(rows));
    ArrivalsAllAdmissible(ins, rows);
    ArrivalsFreshKeys(ins, rows, 1);
  }

  /**
   * After a successful load row k is stored with id k + 1 followed by its
   * values as `StoredAs` says, and no other table changes.
   */
  lemma ArrivalsLoadStores(db: Db, ins: Insert, rows: seq<ArrivalRow>)
    requires ins == ArrivalsInsert || ins == IntendedArrivalsInsert
    requires "arrivals" in db && db["arrivals"] == Table(ArrivalsDef, [], 1)
    requires ExecuteAll(db, ins, ArrivalParamLists(rows)).Success?
    ensures var db1 := ExecuteAll(db, ins, ArrivalParamLists(rows)).value;
      && db1.Keys == db.Keys
      && (forall u :: u in db && u != "arrivals" ==> db1[u] == db[u])
      && |db1["arrivals"].rows| == |rows|
      && forall k :: 0 <= k < |rows| ==> db1["arrivals"].rows[k] == [Int(1 + k)] + ArrivalParams(StoredAs(ins, rows[k]))
  {
    var ps := ArrivalParamLists(rows);
    ExecuteAllAppends(db, ins, ps);
    ArrivalsBuilt(ins, rows, 1);
    var b := Built(ArrivalsDef, ins, ps, 1);
    assert ExecuteAll(db, ins, ps).value["arrivals"].rows == b;
  }

  /**
   * `year` and `month` are NOT NULL: with either insert, binding NULL to
   * the fourth or fifth parameter fails, with a not-null violation unless
   * the sequence was exhausted or a cell did not fit its column first.
   */
  lemma ArrivalsNullYearOrMonthRejected(db: Db, ins: Insert, params: seq<Value>)
    requires ins == ArrivalsInsert || ins == IntendedArrivalsInsert
    requires "arrivals" in db && db["arrivals"].def == ArrivalsDef
    requires |params| == 6 && (params[3] == Null || params[4] == Null)
    ensures Execute(db, ins, params).Failure?
    ensures Execute(db, ins, params).error in {DatatypeMismatch, NumericOutOfRange, SequenceExhausted, NotNullViolation}
  {
    ArrivalsInsertIsPositional();
    IntendedArrivalsInsertIsPositional();
    var j := if params[3] == Null then 3 else 4;
    var i := if ins.columns[j] == "year" then 4 else 5;
    NullParamRejected(db, ins, params, i, j);
  }
}
