# Immigration and temperature ETL: a Dafny model

This project models the relational core of an ETL job. The job loads four PostgreSQL tables: `arrivals`, `airports`, `countries` and `temp`. It builds them from five sources:

- the I94 immigration records;
- the I94 country-code list;
- the ISO 3166 two-letter code list;
- a table of city temperatures;
- a table of airport codes.

The Spark steps become pure functions over finite sequences of records:

- whole-cell dictionary replacement;
- `upper`;
- inner joins;
- `groupBy(...).count()` and `groupBy(...).mean()`;
- filters and projections.

The warehouse becomes an immutable map of tables. Each `cur.execute(insert, params)` is a function on that map. It performs psycopg2's parameter count, then PostgreSQL's checks, grouped by the phase of the server that makes them:

- parsing: the table exists, and the columns exist and are distinct;
- parsing and planning: every supplied value fits its column's type. A value of the wrong type is a datatype mismatch. An integer outside `int`'s 32-bit range is out of range;
- execution: the serial sequence is not exhausted, NOT NULL and PRIMARY KEY columns hold a value, and the primary key is unique.

On success it appends exactly one row. The serial ids (`arrival_id`, `temp_id`) come from the table's sequence, never from the insert.

The modules follow the program:

- `Text`: Spark's `upper`.
- `Replacement`: the three dictionaries and whole-cell replacement.
- `Relational`: filter, inner join, group-by and projection, with multiplicities.
- `Sql`: the schema, the inserts and the drop/create lists of sql_queries.py.
- `Store`: the table store, `cur.execute`, and the drop/create bootstrap.
- `Countries`, `Temperature`, `Airports`, `Arrivals`: `process_countries`, `process_temp`, `process_airports` and `process_immigration`. Each has its row transformation and its load into the warehouse.
- `Quality`: `quality_check`, as written and as intended.
- `Pipeline`: `main`. It covers the preparation, the four loads in order, and the check after the commit.

Three defects of the source are modelled as written and corrected beside it (see Findings):

- the arrivals insert swaps year and month;
- `quality_check` raises a TypeError before its ValueError;
- `iso_dict` never reaches the ISO join key.

`Pipeline.Main` runs the code as written. `Pipeline.MainIntended` on `Pipeline.PrepareIntended` runs the corrected code.

## Model

| member | source | states |
|---|---|---|
| Text.Upper | etl.py:217 | Upper-casing keeps the length and leaves no lower-case letter. Each lower-case letter becomes its capital, 32 code points below it. Every other character stays as it is. |
| Text.UpperFixesExactlyUpperCase | etl.py:174 | A name is unchanged by `upper` exactly when it has no lower-case letter. |
| Text.UpperIdempotent | etl.py:217-218 | Upper-casing an upper-cased name changes nothing. |
| Replacement.ReplaceCell | etl.py:120 | A cell equal to a dictionary key becomes that key's value; every other cell, including one that only contains a key, is kept. |
| Replacement.ReplaceIdempotent | etl.py:120 | For a dictionary with no value that is also a key, replacing twice gives the same cell as replacing once. |
| Replacement.ReplaceChangesOnlyKeys | etl.py:175 | For such a dictionary, a changed cell was a key, and the result is never a key. |
| Replacement.CountriesDictHasNoChains | etl.py:115-119 | No value of `countries_dict` is one of its keys. |
| Replacement.IsoDictHasNoChains | etl.py:122-172 | No value of `iso_dict` is one of its keys. |
| Replacement.TempDictHasNoChains | etl.py:209-216 | No value of `temp_dict` is one of its keys. |
| Replacement.WholeCellExamples | etl.py:115-120 | 'BURMA' becomes 'MYANMAR' and 'INVALID: ' becomes the empty name, while 'INVALID: ANTARCTICA' is untouched. |
| Replacement.IsoDictRenamesVietNam | etl.py:133 | `iso_dict` maps 'VIET NAM' to 'VIETNAM'. |
| Relational.Filter | etl.py:239 | A filter keeps exactly the rows satisfying the test, each with its original multiplicity. |
| Relational.Join | etl.py:236 | An inner join holds each pair as often as the product of the two rows' multiplicities when their keys agree, and never otherwise. |
| Relational.JoinMembership | etl.py:281-283 | A pair is in an inner join exactly when both rows are in their inputs and their keys agree; unmatched rows vanish. |
| Relational.Select | etl.py:72 | The values filed under a key are exactly the values paired with it, each as often as it is paired with it. |
| Relational.GroupBy | etl.py:72 | Grouping yields one group per distinct key, holding every value filed under the key; no group is empty. |
| Relational.GroupByMembership | etl.py:226 | A group is in the result exactly when its key occurs in the input and it holds all of that key's values. |
| Relational.GroupByPartitions | etl.py:72 | The group sizes add up to the number of input rows. |
| Relational.ProjectMembership | etl.py:245 | A projected row is in the result exactly when it is the image of an input row. |
| Countries.CleanCountries | etl.py:115-120 | Cleaning keeps every row and its code. A name that is a `countries_dict` key becomes that key's value, and names that are not keys are kept. No cleaned name is a key. |
| Countries.CleanCountriesIdempotent | etl.py:120 | Cleaning the cleaned country list again changes nothing. |
| Countries.CleanIsos | etl.py:174-177 | Whatever dictionary is applied, each ISO row's join columns are its upper-cased raw name and its raw code. |
| Countries.IsoJoinKeysIgnoreDict | etl.py:174-177 | The replacement reaches only `Name`; the `country` and `2acode` columns are the same for every dictionary. |
| Countries.CleanIsosIntended | etl.py:174-177 | With the correction, each row's join name is the upper-cased raw name rewritten by the dictionary. |
| Countries.CountryBinding | sql_queries.py:66-72 | A country row is stored as `(country_id, country_name)` from its two values, in order. |
| Countries.CountryAdmissible | sql_queries.py:27-30 | A country row passes every per-row check exactly when its code fits a 32-bit `int`. |
| Countries.CountryKeyClash | sql_queries.py:28 | Two stored country rows clash exactly when their codes are equal. |
| Countries.CountryInsertSucceedsIff | sql_queries.py:27-30 | One insert into `countries` succeeds exactly when the row is admissible and no stored row has the same `country_id`. |
| Countries.CountriesLoadSucceedsIff | etl.py:186-187 | Into an empty `countries` table, the load succeeds exactly when every code fits `int` and no code repeats. |
| Countries.CountriesLoadStores | etl.py:186-187 | After a successful load, `countries` holds one `(code, name)` row per cleaned country, in order, and no other table changes. |
| Temperature.CleanTempCountryFacts | etl.py:217-218 | An upper-cased name that is a `temp_dict` key becomes that key's value. Any other name stays upper-cased as it is. The cleaned country is never a key. |
| Temperature.Present | etl.py:225-226 | The readings `mean()` averages are the non-null ones, each as often as it occurs in the group. |
| Temperature.AveragesMembership | etl.py:225-229 | A (country, year, month) key has an average exactly when some reading under it is present; the average is over all present readings under the key. |
| Temperature.KeptMembership | etl.py:236-242 | An average and a country survive the join and both filters exactly when their names match, the code is not 583 and the year is 2002 or later. |
| Temperature.ProcessTemp | etl.py:236-245 | No loaded temperature row has code 583 or a year before 2002. |
| Temperature.ProcessTempMembership | etl.py:236-247 | A row is loaded exactly when it comes from an average and a country with the same name, a code other than 583 and a year from 2002 on; averages without a matching country are dropped. |
| Temperature.TempBinding | sql_queries.py:74-83 | `temp_insert` stores the sequence's next id, then the five values in order. |
| Temperature.TempAdmissible | sql_queries.py:33-41 | A temperature row passes every per-row check exactly when its id and its code fit `int`. The year and month are wrapped into 32 bits by the cast and always fit. |
| Temperature.TempNullYearOrMonthRejected | sql_queries.py:35-36 | An insert into `temp` binding NULL to year or month fails, with a not-null violation unless an earlier check failed. |
| Temperature.TempLoadSucceedsIff | etl.py:251-257 | Into the freshly created `temp` table, the load succeeds exactly when there are at most 2^31-1 rows and every code fits `int`. A year or month too wide is wrapped by `astype('int32')`, not rejected. |
| Temperature.TempLoadStores | etl.py:256-257 | After a successful load, the k-th `temp` row is id k+1 followed by the k-th prepared row's values, and no other table changes. |
| Airports.KeptMembership | etl.py:281-286 | An airport, ISO row and country survive both joins and the filter exactly when the codes match, the names match and the code is not 583. |
| Airports.ProcessAirports | etl.py:281-292 | No loaded airport row has country code 583. |
| Airports.ProcessAirportsMembership | etl.py:277-292 | A row is loaded exactly when some airport matches an ISO row on `2acode`, and that row matches a country (code not 583) on the name. The row is `(ident, municipality, code, region)`. |
| Airports.AirportsIgnoreIsoDict | etl.py:174-183 | From the raw ISO list, the loaded airports depend only on the raw codes and the upper-cased raw names, whatever dictionary is applied. |
| Airports.VietnamAirportDropped | etl.py:174-177 | As written, an airport in Viet Nam never joins the country 'VIETNAM'. |
| Airports.AirportsUseIsoDict | etl.py:174-177 | With the correction, the loaded airports depend on the upper-cased names as rewritten by the dictionary. |
| Airports.VietnamAirportLoadedWhenIntended | etl.py:133 | With the correction, the same Viet Nam airport is loaded under the country's code. |
| Airports.AirportBinding | sql_queries.py:56-64 | An airport row is stored as its four values in the table's own column order. |
| Airports.AirportAdmissible | sql_queries.py:19-25 | An airport row passes every per-row check exactly when its country code fits `int`; a missing municipality is allowed. |
| Airports.AirportKeyClash | sql_queries.py:20 | Two stored airport rows clash exactly when their ports are equal. |
| Airports.AirportInsertSucceedsIff | sql_queries.py:19-24 | One insert into `airports` succeeds exactly when the row is admissible and no stored row has the same `port`. |
| Airports.AirportsLoadSucceedsIff | etl.py:296-297 | Into an empty `airports` table, the load succeeds exactly when every code fits `int` and no port repeats. |
| Airports.AirportsLoadStores | etl.py:296-297 | After a successful load, `airports` holds one row per prepared airport, in order, and no other table changes. |
| Arrivals.ProcessImmigration | etl.py:72-80 | Every emitted arrivals row has a count of at least 1. |
| Arrivals.OneRowPerKey | etl.py:72 | No two emitted rows share a (year, month, residence, port, visa) key. |
| Arrivals.RowsAreCounts | etl.py:72-80 | A row is emitted exactly when its key occurs in the input and its count is the number of records with that key. |
| Arrivals.CountsSumToInput | etl.py:72 | The counts add up to the number of input records: no record is dropped. |
| Arrivals.ArrivalsLayout | sql_queries.py:44-53 | Both arrivals inserts name each non-serial column once, with six markers, in the positions the row order gives. |
| Arrivals.ArrivalsStores | etl.py:91-92 | A row sent positionally is stored as the next id followed by its values, with year and month swapped for the insert as written. |
| Arrivals.ArrivalsBindingSwapsYearAndMonth | sql_queries.py:44-53 | As written, the stored `year` column holds the row's cast month and the stored `month` column holds its cast year. |
| Arrivals.CountWrapsWhenStored | etl.py:87 | A group counted 2^31 times is stored with count -2^31 under either insert, because the cast wraps the count. |
| Arrivals.IntendedArrivalsBinding | sql_queries.py:44-53 | With year named before month, the row is stored as the next id followed by its values in order. |
| Arrivals.ArrivalAdmissible | sql_queries.py:8-16 | An arrivals row passes every per-row check exactly when its id fits `int`, whatever its values: the five cast integers always fit. |
| Arrivals.ArrivalsNullYearOrMonthRejected | sql_queries.py:13-14 | With either insert, binding NULL to year or month fails, with a not-null violation unless an earlier check failed. |
| Arrivals.ArrivalsLoadSucceedsIff | etl.py:85-92 | Into the freshly created `arrivals` table, the load succeeds exactly when there are at most 2^31-1 rows. No integer is rejected, since `astype('int32')` wraps each into 32 bits. |
| Arrivals.ArrivalsLoadStores | etl.py:91-92 | After a successful load, the k-th row is id k+1 followed by the k-th row's values, as the insert places them, and no other table changes. |
| Sql.ArrivalsInsertIsPositional | sql_queries.py:44-54 | `arrivals_insert` names six distinct existing columns, all but `arrival_id`, with six `%s` markers. |
| Sql.AirportsInsertIsPositional | sql_queries.py:56-64 | `airports_insert` names all four columns with four markers. |
| Sql.CountriesInsertIsPositional | sql_queries.py:66-72 | `countries_insert` names both columns with two markers. |
| Sql.TempInsertIsPositional | sql_queries.py:74-83 | `temp_insert` names the five columns other than `temp_id` with five markers. |
| Sql.QueryListsAgree | sql_queries.py:86-87 | The drop list and the create list name arrivals, airports, countries and temp, in that order. |
| Store.WrapInt32 | etl.py:85-89 | `astype('int32')` never fails. Its result is a 32-bit value congruent to the input modulo 2^32, and an input already in range is unchanged. |
| Store.WrapInt32Unique | etl.py:85-89 | The wrapped value is the only 32-bit value congruent to the input modulo 2^32. |
| Store.Append | sql_queries.py:8-41 | An insert into a table succeeds exactly when the row passes the per-row checks and repeats no stored key. It then appends exactly that row and advances the sequence. |
| Store.RowFitsIff | sql_queries.py:8-41 | A built row fits its columns exactly when the supplied values fit and any serial default drawn is a 32-bit value. |
| Store.Execute | etl.py:92 | A wrong number of parameters or a missing table fails first; otherwise the table's checks decide, and success changes only that table. |
| Store.ExecuteAddsOneRow | sql_queries.py:44-83 | A successful insert adds exactly one row at the end of its own table and leaves every other table unchanged. |
| Store.PositionalSerial | sql_queries.py:9 | A serial column not named by the insert receives the sequence's next value. |
| Store.PositionalRowPermuted | etl.py:92 | Parameters bound by position land in the columns the insert names, in that order. |
| Store.NullParamRejected | sql_queries.py:35-36 | Binding NULL to a NOT NULL column makes the insert fail. |
| Store.OutOfRangeParamRejected | sql_queries.py:35 | Binding an integer outside the 32-bit range to an `int` column fails with a value error, never with sequence exhaustion or a not-null violation. |
| Store.FirstColumnKeyClash | sql_queries.py:20 | With a single-column key in the first column, two rows clash exactly when their first cells are equal. |
| Store.ExecuteAllSucceedsIff | etl.py:186-187 | A run of inserts succeeds exactly when every row passes its per-row checks at its sequence value, and no row repeats a key already stored or earlier in the run. |
| Store.ExecuteAllAppends | etl.py:186-187 | After a successful run, the table holds its old rows followed by the built rows, and every other table is unchanged. |
| Store.DropsRemoveTables | sql_queries.py:86 | The drop list removes the four tables and leaves every other table alone. |
| Store.CreatesAddTables | sql_queries.py:87 | On a database without them, the create list adds the four tables empty, with their declared definitions. |
| Store.BootstrapIsFresh | create_tables.py:58-61 | Whatever the database held, dropping and creating leaves the four tables empty with sequences at 1, and every other table unchanged. |
| Quality.CountRows | etl.py:303-305 | `SELECT COUNT(*)` succeeds exactly when the table exists, and then returns its number of rows. |
| Quality.AllMatchMeans | etl.py:307-318 | All checks match exactly when arrivals, airports, countries and temp hold 224941, 24566, 289 and 21572 rows. |
| Quality.CheckFromOutcome | etl.py:302-318 | From any table on, the loop passes only if every later count matches, and raises the TypeError of the first mismatching table; the ValueError needs an earlier failure. |
| Quality.AsWrittenPassesIff | etl.py:302-323 | As written, the check completes without raising exactly when all four counts are as expected. |
| Quality.AsWrittenNeverValueError | etl.py:307-323 | As written, the check never raises its ValueError; it raises a TypeError exactly when some table's count differs and every earlier one matches. |
| Quality.FailedFromIff | etl.py:302-318 | When every table exists, the intended failed list names exactly the tables whose counts differ. |
| Quality.IntendedReportsAllMismatches | etl.py:299-323 | Corrected, the check passes exactly when all counts match, and otherwise raises one ValueError naming exactly the tables whose counts differ. |
| Quality.PassingAgrees | etl.py:320-323 | The check as written and as intended pass on exactly the same databases. |
| Pipeline.Prepare | etl.py:334-338 | End to end, against the five sources: the country list keeps every record and its code in order. No temperature or airport row carries code 583, and no temperature row is from before 2002. The arrival counts sum to the number of I94 records. |
| Pipeline.PreparedCodesFromCountryList | etl.py:236-283 | Every temperature row and every airport row carries the code of some record of the I94 country list. |
| Pipeline.PrepareIntended | etl.py:174-177 | The corrected preparation differs from the one as written only in the airport rows. |
| Pipeline.LoadSucceedsIff | etl.py:334-338 | From freshly created tables, the four loads succeed exactly when every table admits its prepared rows. |
| Pipeline.LoadStores | etl.py:334-338 | After the loads, each table holds exactly its prepared rows in order, serial ids counting from 1, and nothing else changes. |
| Pipeline.StoredYearAndMonth | etl.py:75-92 | After a load as written, every arrivals row's `year` cell holds the cast month and its `month` cell the cast year. Loaded as intended, each holds its own cast value. |
| Pipeline.CountsAfterLoad | etl.py:340-344 | After a load, the check's counts are as expected exactly when the prepared row counts are. |
| Pipeline.MainOutcomes | etl.py:326-346 | `main` as written commits exactly when every table admits its rows, and passes exactly when the row counts are also the expected ones. Any other committed run ends in a TypeError. |
| Pipeline.MainIntendedOutcomes | etl.py:326-346 | The corrected `main` commits under the same condition, passes exactly when the counts are as expected, and otherwise raises a ValueError. |

## Left out

- Spark session creation, reading the CSV, SAS and parquet files, and the SAS-to-parquet conversion (etl.py:12-56). These are file and library I/O. The five sources are parameters, already read.
- Connecting, the cursor, `commit` and `close` (etl.py:327-346), and the database creation in create_tables.py:4-27. These are database plumbing. The drop/create lists themselves are modelled (`Store.Bootstrap`).
- The float arithmetic: the mean of the readings and the Fahrenheit conversion (etl.py:225-233). A temperature is kept as the expression that produced it (`MeanOf`, `FahrenheitOf`). Only its presence or absence matters to the pipeline.
- Timestamp parsing with `date_format` (etl.py:221-222). Year and month are given as integers.
- Printing. The only exception is the raise that printing causes in `quality_check`.
- Text.Upper: only ASCII and the Latin-1 lower-case letters are mapped. Spark's full Unicode upper-casing (including 'ß' to 'SS') is not modelled. The country lists use no other letters.
- Arrivals.ProcessImmigration: its rows are Spark's grouped rows, before the pandas `astype('int32')` casts (etl.py:85-89). The casts are applied when the rows are bound (`Arrivals.ArrivalParams`, `Temperature.TempParams` for etl.py:253-254), as `Store.WrapInt32`. The I94 columns arrive from the SAS file as floats, which the cast truncates. The model takes them as integers already, so the truncation is not modelled.
- Relational.Join: the model fixes one row order, the left input's order. Spark promises none. Row-order statements (`Pipeline.LoadStores`) describe this order; every membership and count statement is order-free.
- Store.Append: a value is accepted only in a column of its own type, and an integer also in a `float` column. PostgreSQL's assignment casts accept more. An integer or a real can go into a `varchar` column, and a real into an `int` column after rounding. A text that spells a number can go into a numeric column. None of these arise in the pipeline, because every parameter it sends has its column's type. See the `Temperature.TempParams` line below for the one exception.
- Store.Append: when several values fail, PostgreSQL reports the first in its own evaluation order. The model reports a datatype mismatch whenever any value has the wrong type, and an out-of-range error only when every failing value is an out-of-range integer.
- Store.Append: the sequence advances on every successful insert. PostgreSQL advances it only when a serial default is drawn. The two agree for these tables, since the inserts into `arrivals` and `temp` always draw and no later statement reads the sequences of `airports` and `countries`.
- Pipeline.LoadSucceedsIff: stated for the freshly created tables that create_tables.py leaves (`Store.BootstrapIsFresh`). A run onto tables that already hold rows is described only per table, by `Store.ExecuteAllSucceedsIff` and `Store.ExecuteAllAppends`.
- Pipeline.MainOutcomes: the same restriction to freshly created tables applies.
- Airports.VietnamAirportDropped: it shows the ISO finding on one name. The all-inputs statement is `Airports.AirportsIgnoreIsoDict`.
- The second `withColumnRenamed('AverageTemperature', 'avg_tempF')` (etl.py:247) renames a column that no longer exists, so it has no effect. The values are still sent by position.
- Temperature.TempParams: pandas `iterrows` turns an all-numeric temperature row into floats, so `code`, `year` and `month` reach `temp_insert` as floats like `2013.0`. PostgreSQL's assignment cast turns each whole float into the same integer. The model sends them as integers, which the table stores the same way.
- Nulls are modelled where the data can hold them: a missing temperature reading and a missing municipality. Other columns are taken as present.

## Findings

| source | as written | input that shows it | evidently intended | confidence | as-written member | corrected member |
|---|---|---|---|---|---|---|
| sql_queries.py:44-53 | `arrivals_insert` names `month` before `year`, while `process_immigration` sends `(country_id, visa_type, count, year, month, port)` by position | any grouped row, say year 2016 and month 4: the stored `year` is 4 and the stored `month` is 2016 | `year` named before `month`, so each value lands in its own column | high; not executed | Arrivals.ArrivalsBindingSwapsYearAndMonth | Arrivals.IntendedArrivalsBinding |
| etl.py:307-318 | each mismatch message adds an integer row count to a string, which raises a TypeError before any later table is checked | a database whose `arrivals` table holds 5 rows: TypeError at arrivals, and the other tables are never counted | every table counted, then one ValueError listing all failed tables (etl.py:320-323) | high; not executed | Quality.AsWrittenNeverValueError | Quality.IntendedReportsAllMismatches |
| etl.py:174-177 | `iso_dict` is applied to `Name`, but the join reads `upper(Name)`, computed before the replacement | ISO row ('Viet Nam', 'VN'), country 'VIETNAM' with a code other than 583, an airport whose `iso_country` is 'VN': the airport is not loaded | the dictionary applied to the upper-cased name, so the renamed ISO names meet the I94 country names | high; not executed | Airports.VietnamAirportDropped | Airports.AirportsUseIsoDict |
