/**
 * `quality_check`: one `SELECT COUNT(*)` per table, in the order arrivals,
 * airports, countries, temp, each compared with a fixed expected count.
 * As written, a mismatch builds its message by adding an integer to a
 * string, which raises a TypeError on the spot; the aggregate ValueError
 * the function ends with is never reached. The intended check is modelled
 * beside it.
 */
module Quality {
  import opened Wrappers
  import opened Store

  /** How a run of the check ends. */
  datatype Outcome =
    | Passed
    | TypeError(table: string)
    | ValueError(failed: seq<string>)
    | QueryFailed(error: DbError)

  /** The tables checked, in order, with the row count each must have. */
  const Checks: seq<(string, nat)> := [("arrivals", 224941), ("airports", 24566), ("countries", 289), ("temp", 21572)]

  /** `SELECT COUNT(*) FROM table;` — an error when the table does not exist. */
  function CountRows(db: Db, table: string): (r: Result<nat, DbError>)
    ensures r.Success? <==> table in db
    ensures r.Success? ==> r.value == |db[table].rows|
  {
    match RowCount(db, table)
    case None => Failure(UndefinedTable(table))
    case Some(n) => Success(n)
  }

  /** Check `i` passes: its table exists and holds exactly the expected number of rows. */
  predicate Matches(db: Db, i: nat)
    requires i < |Checks|
  {
    Checks[i].0 in db && |db[Checks[i].0].rows| == Checks[i].1
  }

  /** Check `i` fails on its count: the table exists but its row count differs. */
  predicate Mismatches(db: Db, i: nat)
    requires i < |Checks|
  {
    Checks[i].0 in db && |db[Checks[i].0].rows| != Checks[i].1
  }

  /** All four counts are as expected. */
  predicate AllMatch(db: Db) {
    forall i :: 0 <= i < |Checks| ==> Matches(db, i)
  }

  /** The expected counts spelled out table by table. */
  lemma AllMatchMeans(db: Db)
    ensures AllMatch(db) <==>
      && "arrivals" in db && |db["arrivals"].rows| == 224941
      && "airports" in db && |db["airports"].rows| == 24566
      && "countries" in db && |db["countries"].rows| == 289
      && "temp" in db && |db["temp"].rows| == 21572
  {
    if AllMatch(db) {
      assert Matches(db, 0) && Matches(db, 1) && Matches(db, 2) && Matches(db, 3);
    }
  }

  /**
   * The loop as written from check `i` on, with the tables that failed so
   * far: a mismatch appends its table and then raises while printing.
   */
  function CheckFrom(db: Db, i: nat, failed: seq<string>): Outcome
    requires i <= |Checks|
    decreases |Checks| - i
  {
    if i == |Checks| then
      if |failed| == 0 then Passed else ValueError(failed)
    else
      var (table, expected) := Checks[i];
      match CountRows(db, table)
      case Failure(e) => QueryFailed(e)
      case Success(n) =>
        if n != expected then
          var _ := failed + [table];
          TypeError(table)
        else CheckFrom(db, i + 1, failed)
  }

  /** `quality_check` as written. */
  function QualityCheckAsWritten(db: Db): Outcome {
    CheckFrom(db, 0, [])
  }

  /**
   * From check `i` on, the run passes exactly when every remaining count
   * matches and nothing has failed yet, raises the TypeError of the first
   * remaining check that mismatches when all before it match, and never
   * reaches the ValueError unless something had failed before `i`.
   */
  lemma {:induction false} CheckFromOutcome(db: Db, i: nat, failed: seq<string>)
    requires i <= |Checks|
    ensures CheckFrom(db, i, failed) == Passed <==> |failed| == 0 && forall j :: i <= j < |Checks| ==> Matches(db, j)
    ensures CheckFrom(db, i, failed).ValueError? ==> |failed| > 0
    ensures CheckFrom(db, i, failed).TypeError? <==>
      exists j :: i <= j < |Checks| && Mismatches(db, j) && (forall m :: i <= m < j ==> Matches(db, m))
    ensures CheckFrom(db, i, failed).TypeError? ==>
      exists j :: i <= j < |Checks| && Mismatches(db, j) && CheckFrom(db, i, failed).table == Checks[j].0
        && (forall m :: i <= m < j ==> Matches(db, m))
    decreases |Checks| - i
  {
    if i < |Checks| {
      CheckFromOutcome(db, i + 1, failed);
      if !Matches(db, i) && !Mismatches(db, i) {
        assert CheckFrom(db, i, failed).QueryFailed?;
        assert forall j :: i <= j < |Checks| && Mismatches(db, j) ==> exists m :: i <= m < j && !Matches(db, m) by {
          forall j | i <= j < |Checks| && Mismatches(db, j)
            ensures exists m :: i <= m < j && !Matches(db, m)
          {
            assert j != i;
          }
        }
      }
    }
  }

  /** As written, the check completes without raising exactly when all four counts are as expected. */
  lemma AsWrittenPassesIff(db: Db)
    ensures QualityCheckAsWritten(db) == Passed <==> AllMatch(db)
  {
    CheckFromOutcome(db, 0, []);
  }

  /** As written, the aggregate ValueError is unreachable: the first mismatch raises a TypeError first. */
  lemma AsWrittenNeverValueError(db: Db)
    ensures !QualityCheckAsWritten(db).ValueError?
    ensures QualityCheckAsWritten(db).TypeError? <==>
      exists j :: 0 <= j < |Checks| && Mismatches(db, j) && forall m :: 0 <= m < j ==> Matches(db, m)
  {
    CheckFromOutcome(db, 0, []);
  }

  /** The tables from check `i` on whose counts differ, or the first query error. */
  function FailedFrom(db: Db, i: nat): Result<seq<string>, DbError>
    requires i <= |Checks|
    decreases |Checks| - i
  {
    if i == |Checks| then Success([])
    else
      var (table, expected) := Checks[i];
      match CountRows(db, table)
      case Failure(e) => Failure(e)
      case Success(n) =>
        var rest :- FailedFrom(db, i + 1);
        Success(if n != expected then [table] + rest else rest)
  }

  /** The check as its final lines intend: every table is counted, and all mismatches are reported together. */
  function QualityCheckIntended(db: Db): Outcome {
    match FailedFrom(db, 0)
    case Failure(e) => QueryFailed(e)
    case Success(failed) => if |failed| == 0 then Passed else ValueError(failed)
  }

  /**
   * From check `i` on, when every remaining table exists, the failed list
   * names exactly the remaining tables whose counts differ.
   */
  lemma {:induction false} FailedFromIff(db: Db, i: nat)
    requires i <= |Checks|
    ensures FailedFrom(db, i).Success? <==> forall j :: i <= j < |Checks| ==> Checks[j].0 in db
    ensures FailedFrom(db, i).Success? ==>
      forall t :: t in FailedFrom(db, i).value <==> exists j :: i <= j < |Checks| && Checks[j].0 == t && Mismatches(db, j)
    ensures FailedFrom(db, i).Success? ==>
      (FailedFrom(db, i).value == [] <==> forall j :: i <= j < |Checks| ==> !Mismatches(db, j))
    decreases |Checks| - i
  {
    if i < |Checks| {
      FailedFromIff(db, i + 1);
      if FailedFrom(db, i).Success? {
        if Mismatches(db, i) {
          assert FailedFrom(db, i).value == [Checks[i].0] + FailedFrom(db, i + 1).value;
        } else {
          assert FailedFrom(db, i).value == FailedFrom(db, i + 1).value;
        }
      }
    }
  }

  /**
   * The intended check passes exactly when all four counts are as
   * expected, and otherwise, when all tables exist, raises one ValueError
   * naming exactly the tables whose counts differ.
   */
  lemma IntendedReportsAllMismatches(db: Db)
    ensures QualityCheckIntended(db) == Passed <==> AllMatch(db)
    ensures QualityCheckIntended(db).ValueError? ==>
      forall t :: t in QualityCheckIntended(db).failed <==> exists j :: 0 <= j < |Checks| && Checks[j].0 == t && Mismatches(db, j)
    ensures (forall j :: 0 <= j < |Checks| ==> Checks[j].0 in db) && !AllMatch(db) ==> QualityCheckIntended(db).ValueError?
  {
    FailedFromIff(db, 0);
    if QualityCheckIntended(db) == Passed {
      forall j | 0 <= j < |Checks|
        ensures Matches(db, j)
      {
        assert Checks[j].0 in db;
      }
    }
    if AllMatch(db) {
      forall j | 0 <= j < |Checks|
        ensures Checks[j].0 in db
      {
        assert Matches(db, j);
      }
      forall j | 0 <= j < |Checks|
        ensures !Mismatches(db, j)
      {
        assert Matches(db, j);
      }
    }
    if (forall j :: 0 <= j < |Checks| ==> Checks[j].0 in db) && !AllMatch(db) {
      var j :| 0 <= j < |Checks| && !Matches(db, j);
      assert Mismatches(db, j);
      assert Checks[j].0 in FailedFrom(db, 0).value;
    }
  }

  /** The as-written and the intended check agree on when the counts pass. */
  lemma PassingAgrees(db: Db)
    ensures QualityCheckAsWritten(db) == Passed <==> QualityCheckIntended(db) == Passed
  {
    AsWrittenPassesIff(db);
    IntendedReportsAllMismatches(db);
  }
}
