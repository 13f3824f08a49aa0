# Permit-table reconciliation, modelled in Dafny

`script.py` keeps a local SQLite table `data` of Tampa planning permits in step
with the city's GeoJSON feed. After an external loader has upserted the latest
snapshot into the table, `main()` runs four steps inside one transaction:

1. **Timestamp normalisation.** `CREATEDDATE` and `LASTUPDATE` hold epoch
   milliseconds. In every row where both are non-NULL and `> 0`, both are
   rewritten as UTC text `YYYY-MM-DDTHH:MM:SSZ` of `ms / 1000` seconds.
2. **Feed ids.** The set of `properties.RECORDID` over the feed's `features`.
3. **Soft archival.** Every row whose `RECORDID` is not in that set and whose
   `archived` is 0 gets `archived = 1` and `date_archived = now`.
4. **date_added stamping.** Every row whose `date_added` is NULL gets `now`.

The project has four modules:

- `Wrappers` (`wrappers.dfy`): `Option` and `Result`.
- `UtcTime` (`utc_time.dfy`): the proleptic Gregorian calendar from 1970 on,
  the rendering `Render` of a second count as the 20-character ISO 8601 text,
  and its inverse `Parse`. Both round trips are proved, and so is the fact
  that the year has four digits exactly up to 9999-12-31T23:59:59Z.
- `Feed` (`feed.dfy`): the decoded feed document and the id set built from it.
  This includes the `KeyError` raised by the first feature that has no
  `properties` or no `RECORDID`, and the `TypeError` raised when the document,
  a feature or its `properties` is not a JSON object or `features` cannot be
  iterated.
- `PermitTable` (`permit_table.dfy`): SQLite cell values, the row record, one
  pure function per step (`NormalizePass`, `ArchivePass`, `StampPass`) and
  `RunSpec` for a whole run. The class `Table` holds the table as a map from
  `RECORDID` to row. Its methods `NormalizeTimestamps`, `ArchiveMissing` and
  `StampDateAdded` update it row by row in a loop. `Run` chains them and
  restores the old table when the run raises before the commit. Each method is
  proved to leave exactly the table its pure function describes.

How the model reflects SQLite and Python:

- A cell is `Null`, `Int` or `Text`.
- `x > 0` is true for any TEXT value, because SQLite sorts text above every
  number.
- `NOT IN` uses SQL's three-valued logic. A NULL id in the list makes it NULL,
  never true. An empty list makes it true for every row.
- The two calls that read the clock (script.py:97 and :104) are two separate
  string parameters, `archiveNow` and `addedNow`.
- `textCase` is a parameter. It gives the value the normalisation expression
  yields on a TEXT cell.
- `variableLimit` is a parameter. It is SQLite's cap on bound parameters; the
  archive statement binds one per id plus one for the time.

## Behaviour of the code a reader may not expect

The model follows the code in each of these cases.

- Archival is a soft flag on the one `data` table. A reader might expect
  archived permits to be copied to a separate table and deleted from the
  current one, but no step inserts or deletes a row (`RunSpec` keeps the key
  set).
- A reader might expect a run whose feed has no features to change nothing.
  There is no such guard. An empty `features` list gives the empty id set, and
  the archive step then archives every row not yet archived
  (`EmptyFeedArchivesEveryActiveRow`).
- A reader might expect normalisation to skip values that are already text.
  The `WHERE` clause has no type check, and text compares above 0. So a row
  normalised once still matches the normalisation condition and is rewritten
  on every later run (`NormalizedRowStillMatches`).
- A reader might expect a record listed in the feed to end the run
  unarchived. The steps never clear `archived`. A listed row keeps whatever
  flag it had (`CommittedRunPartitions`). Whether the loader resets the flag
  is outside the model.
- A feature whose `RECORDID` is JSON null puts NULL into the `NOT IN` list.
  Then no row is archived in that run (`ArchivePass`, `CommittedRunPartitions`).

## Model

| member | source | states |
|---|---|---|
| `UtcTime.CivilFromDays` | script.py:74-75 | the calendar date a day count falls on is a valid date (month 1..12, day within that month in that year) whose day count from 1970-01-01 is the input |
| `UtcTime.DaysFromCivilInjective` | script.py:74-75 | two valid dates with the same day count are the same date |
| `UtcTime.CivilRoundTrip` | script.py:74-75 | converting a valid date to its day count and back gives the date |
| `UtcTime.InstantOf` | script.py:74-75 | the instant of a second count has a valid date, hour < 24, minute < 60, second < 60, and counts back to the same seconds |
| `UtcTime.InstantRoundTrip` | script.py:74-75 | counting the seconds of a valid instant and converting back gives the instant |
| `UtcTime.YearBelow10000` | script.py:74-75 | a date's year has at most four digits exactly when it falls before 10000-01-01 (day 2932897) |
| `UtcTime.InstantInRange` | script.py:74-75 | the year of a second count is at most 9999 exactly when the count is at most 253402300799 |
| `UtcTime.DaysBeforeYearClosedForm` | script.py:74-75 | days before a year equal 365 per year plus the Gregorian leap days (every 4th year, not every 100th, every 400th) |
| `UtcTime.Render` | script.py:74-75 | the rendering is 20 characters: digits, with `-`, `-`, `T`, `:`, `:`, `Z` at positions 4, 7, 10, 13, 16, 19 |
| `UtcTime.ParseRender` | script.py:74-75 | parsing the rendering of a second count gives back that count |
| `UtcTime.RenderParse` | script.py:74-75 | every text that parses is the rendering of the count it parses to, and that count is in range |
| `UtcTime.RenderInjective` | script.py:74-75 | two second counts render alike exactly when they are equal |
| `UtcTime.RenderFields` | script.py:74-75 | the rendered year is 1970..9999, month 1..12, day valid for month and year, hour < 24, minute and second < 60 |
| `UtcTime.EpochRendering` | script.py:74-75 | second 0 renders as 1970-01-01T00:00:00Z |
| `Feed.RecordIdOf` | script.py:85-86 | a feature's id lookup succeeds exactly when it is an object whose properties is an object holding RECORDID. It fails with KeyError('properties') exactly when properties is absent, with TypeError exactly when the feature or its properties is not an object, and with KeyError('RECORDID') when properties lacks RECORDID. JSON null gives the NULL id and a string gives that string |
| `Feed.FeedIds` | script.py:85-86 | the id set is built exactly when every feature's lookup succeeds, and is then exactly the ids of the features. Otherwise the error is that of the first failing feature |
| `Feed.ExtractIds` | script.py:83-86 | text that is not JSON raises a decode error. A document that is not an object, or whose `features` cannot be iterated, raises TypeError. A document without `features` raises KeyError('features'). Otherwise the result is the feature-list extraction |
| `Feed.FeedIdsIgnoreOrder` | script.py:85-86 | two feature lists with the same members (any order, any repeats) both succeed or both fail, and give the same id set |
| `Feed.EmptyFeatureListGivesNoIds` | script.py:85-86 | an empty feature list yields the empty id set, with no error |
| `PermitTable.EpochText` | script.py:74-75 | a second count up to 9999-12-31T23:59:59Z becomes text that parses back to it. A larger count becomes NULL |
| `PermitTable.NormalizePass` | script.py:71-80 | keys are kept, and a row failing the non-NULL and > 0 test is unchanged. Otherwise only its two timestamps change. An integer ms becomes the UTC rendering of ms div 1000 (NULL past year 9999), and a text value becomes textCase's result |
| `PermitTable.NormalizedRowStillMatches` | script.py:76-79 | a row rewritten from two in-range positive integers changes and still satisfies the normalisation condition |
| `PermitTable.ArchivePass` | script.py:89-97 | keys are kept. Rows whose id is in the feed set are unchanged, and so are rows whose flag is not 0. A NULL id in the set leaves the whole table unchanged. A row missing from the set with flag 0 gets flag 1 and date_archived = now |
| `PermitTable.ArchiveCompleteness` | script.py:89-97 | with flags 0/1 and no NULL id, every row missing from the feed ends with flag 1 and flags stay 0/1 |
| `PermitTable.ArchivePassIdempotent` | script.py:95 | a second archive pass with the same ids, at any time, changes nothing: archived rows keep their date_archived |
| `PermitTable.EmptyFeedArchivesEveryActiveRow` | script.py:85-97 | with an empty id set, every row with flag 0 is archived at the run's time |
| `PermitTable.StampPass` | script.py:100-104 | keys are kept, every row ends with a non-NULL date_added, rows that had one are unchanged, and NULL ones get now and nothing else |
| `PermitTable.StampPassIdempotent` | script.py:100-104 | a second stamping pass, at any time, changes nothing |
| `PermitTable.RunSpec` | script.py:61-109 | the key set is kept. The run commits exactly when the fetch succeeded, the ids were extracted and they fit SQLite's variable limit; extraction errors are reported, and an id set too large for the limit rolls back with TooManySqlVariables. Otherwise the table is unchanged. A committed run leaves every date_added non-NULL. Flag 1 stays 1, and flags 0/1 stay 0/1 |
| `PermitTable.CommittedRunPartitions` | script.py:89-97 | after a run whose ids were extracted and fit the variable limit (so it commits) a listed row keeps archived and date_archived. With no NULL id, a missing row has flag 1, stamped with the run's time if it was 0. With a NULL id nothing is archived |
| `PermitTable.RerunPassesKeepArchival` | script.py:71-104 | running the three steps again with the same ids keeps the keys, archived, date_archived and date_added |
| `PermitTable.RerunKeepsArchival` | script.py:61-109 | after a committed run, a second run on the same feed, at any times, is committed too and keeps archived, date_archived and date_added |
| `PermitTable.Table.NormalizeTimestamps` | script.py:71-80 | the loop leaves the table equal to NormalizePass of the old table |
| `PermitTable.Table.ArchiveMissing` | script.py:89-97 | the loop leaves the table equal to ArchivePass of the old table, ids and time |
| `PermitTable.Table.StampDateAdded` | script.py:100-104 | the loop leaves the table equal to StampPass of the old table and time |
| `PermitTable.Table.Run` | script.py:61-109 | returns the outcome and leaves the table that RunSpec gives for the old table, including the restored table on a rolled-back run |

## Left out

- Fetching the feed and writing the temporary file (script.py:10-20) are network and file I/O. The model takes the fetch's result as the `Fetch` value.
- The external `geojson-to-sqlite` upsert (script.py:63-69) cannot be seen here. The model's input table is the table as the loader left it.
- Reading and deleting the temporary file (script.py:83-84, 106) and connecting, committing and closing (script.py:29, 108-109) are storage plumbing. Decoding is the `Document` value, the commit is the `Committed` outcome, and a rollback restores the old table.
- Creating the table (script.py:33-59) is DDL. The schema is the `Row` datatype. The `archived` default of 0 applies to rows the loader inserts, which is outside the model.
- `convert_timestamp` (script.py:22-26) is never called.
- The clock (script.py:97, 104) becomes the opaque string parameters `archiveNow` and `addedNow`.
- SQLite's coercion of a TEXT value to a number inside the normalisation expression is given by the parameter `textCase`. So the model does not say what an already-text timestamp becomes.
- REAL and BLOB cell values are not modelled. Neither are `RECORDID` property values that are numbers or booleans (they would enter the id set), or arrays or objects (putting them in a set raises TypeError).
- A NULL `RECORDID` in the table is not modelled: keys are strings. SQLite allows NULL in a TEXT primary key of a rowid table.
- SQLite's own date arithmetic is not modelled. The model uses the definition of the proleptic Gregorian calendar, which SQLite's algorithm computes. Beyond 9999-12-31T23:59:59Z the model gives NULL, as SQLite's `unixepoch` modifier does.
- Failures other than decoding, a missing key, indexing or iterating a value of the wrong JSON type, and too many SQL variables are not modelled. Examples are a busy database, a lost disk or an interrupt.
- Row visiting order is not modelled. The loops take keys in an arbitrary order, and each row's update depends only on that row.
- PermitTable.NormalizePass: states integer inputs exactly. For TEXT inputs it states only that the result is `textCase`'s, and it claims no re-run idempotence, because the code has none.
