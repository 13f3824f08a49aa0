/**
 * The `data` table of permit records and the four steps main() runs on it
 * after the loader has upserted the feed snapshot: timestamp normalisation,
 * feed-id extraction, soft archival and date_added stamping, committed
 * together or rolled back together.
 */
module PermitTable {
  import opened Wrappers
  import UtcTime
  import Feed

  /** A value in one SQLite cell (REAL and BLOB values are not modelled). */
  datatype Value = Null | Int(i: int) | Text(s: string)

  /**
   * One row of `data`. RECORDID, the primary key, is the row's key in the
   * table; the columns no step writes (id, OBJECTID, ADDRESS, UNIT, APPSTATUS,
   * TENTATIVEHEARING, TENTATIVETIME, RECORDALIAS, MAPDOT, CRA, NEIGHBORHOOD,
   * COUNCILDISTRICT, CREATED, LASTEDITOR, GlobalID, URL, geometry) are kept
   * by name in attributes.
   */
  datatype Row = Row(
    createdDate: Value,
    lastUpdate: Value,
    dateAdded: Value,
    dateArchived: Value,
    archived: Value,
    attributes: map<string, Value>)

  /** The table, keyed by RECORDID. */
  type Rows = map<string, Row>

  /** The archived flag holds 0 or 1 in every row, as its DEFAULT 0 and the archive step keep it. */
  predicate FlagsWellFormed(rows: Rows) {
    forall k | k in rows :: rows[k].archived == Int(0) || rows[k].archived == Int(1)
  }

  // ---------------------------------------------------------------------------
  // Step 1: rewrite CREATEDDATE and LASTUPDATE as UTC text

  /** `v > 0` holds in SQLite: NULL is never greater, and every TEXT value sorts above every number. */
  predicate AboveZero(v: Value) {
    match v
    case Null => false
    case Int(i) => i > 0
    case Text(_) => true
  }

  /** The WHERE clause of the normalisation statement. */
  predicate NeedsNormalizing(r: Row) {
    r.createdDate != Null && r.lastUpdate != Null && AboveZero(r.createdDate) && AboveZero(r.lastUpdate)
  }

  /** v is what SQLite's date functions give secs as Unix time: its UTC text, or NULL past 9999-12-31T23:59:59Z. */
  predicate RendersSeconds(v: Value, secs: nat) {
    if secs <= UtcTime.MaxSeconds then v.Text? && UtcTime.Parse(v.s) == Some(secs) else v == Null
  }

  function EpochText(secs: nat): (v: Value)
    ensures RendersSeconds(v, secs)
  {
    if secs <= UtcTime.MaxSeconds then
      UtcTime.ParseRender(secs);
      Text(UtcTime.Render(secs))
    else Null
  }

  /**
   * The new value of a timestamp column that passed the WHERE clause. An
   * integer of milliseconds is divided by 1000 (positive, so truncation and
   * flooring agree). For a TEXT value SQLite first coerces the text to a
   * number; that coercion is not modelled, and textCase gives its result.
   */
  function Normalized(v: Value, textCase: string -> Value): Value
    requires AboveZero(v)
  {
    if v.Int? then EpochText(v.i / 1000) else textCase(v.s)
  }

  function NormalizeRow(r: Row, textCase: string -> Value): Row {
    if NeedsNormalizing(r) then
      r.(createdDate := Normalized(r.createdDate, textCase), lastUpdate := Normalized(r.lastUpdate, textCase))
    else r
  }

  /** The table after the normalisation statement. */
  function NormalizePass(rows: Rows, textCase: string -> Value): (r: Rows)
    ensures r.Keys == rows.Keys
    ensures forall k | k in rows && !NeedsNormalizing(rows[k]) :: r[k] == rows[k]
    ensures forall k | k in rows ::
      && r[k].dateAdded == rows[k].dateAdded && r[k].dateArchived == rows[k].dateArchived
      && r[k].archived == rows[k].archived && r[k].attributes == rows[k].attributes
    ensures forall k | k in rows && NeedsNormalizing(rows[k]) && rows[k].createdDate.Int? ::
      RendersSeconds(r[k].createdDate, rows[k].createdDate.i / 1000)
    ensures forall k | k in rows && NeedsNormalizing(rows[k]) && rows[k].lastUpdate.Int? ::
      RendersSeconds(r[k].lastUpdate, rows[k].lastUpdate.i / 1000)
    ensures forall k | k in rows && NeedsNormalizing(rows[k]) && rows[k].createdDate.Text? ::
      r[k].createdDate == textCase(rows[k].createdDate.s)
    ensures forall k | k in rows && NeedsNormalizing(rows[k]) && rows[k].lastUpdate.Text? ::
      r[k].lastUpdate == textCase(rows[k].lastUpdate.s)
  {
    map k | k in rows :: NormalizeRow(rows[k], textCase)
  }

  /**
   * A row rewritten from two in-range integers still passes the WHERE clause,
   * because its new TEXT values compare above 0: a later run rewrites it again.
   */
  lemma NormalizedRowStillMatches(r: Row, textCase: string -> Value)
    requires r.createdDate.Int? && r.lastUpdate.Int? && r.createdDate.i > 0 && r.lastUpdate.i > 0
    requires r.createdDate.i / 1000 <= UtcTime.MaxSeconds && r.lastUpdate.i / 1000 <= UtcTime.MaxSeconds
    ensures NormalizeRow(r, textCase) != r
    ensures NeedsNormalizing(NormalizeRow(r, textCase))
  {
  }

  // ---------------------------------------------------------------------------
  // Step 3: soft-archive the rows missing from the feed

  /**
   * `key NOT IN (ids)` is TRUE. An empty list makes it true for every key;
   * a NULL in the list makes it NULL, never TRUE, for every key not listed.
   */
  predicate NotInFeed(key: string, ids: set<Feed.FeedId>) {
    Feed.Id(key) !in ids && Feed.NullId !in ids
  }

  /** The WHERE clause of the archive statement. */
  predicate NeedsArchiving(key: string, r: Row, ids: set<Feed.FeedId>) {
    NotInFeed(key, ids) && r.archived == Int(0)
  }

  function ArchiveRow(key: string, r: Row, ids: set<Feed.FeedId>, now: string): Row {
    if NeedsArchiving(key, r, ids) then r.(archived := Int(1), dateArchived := Text(now)) else r
  }

  /** The table after the archive statement, run at time now. */
  function ArchivePass(rows: Rows, ids: set<Feed.FeedId>, now: string): (r: Rows)
    ensures r.Keys == rows.Keys
    ensures forall k | k in rows && Feed.Id(k) in ids :: r[k] == rows[k]
    ensures forall k | k in rows && rows[k].archived != Int(0) :: r[k] == rows[k]
    ensures Feed.NullId in ids ==> r == rows
    ensures forall k | k in rows && NeedsArchiving(k, rows[k], ids) ::
      r[k] == rows[k].(archived := Int(1), dateArchived := Text(now))
  {
    map k | k in rows :: ArchiveRow(k, rows[k], ids, now)
  }

  /** With no NULL id in the feed, every row missing from it ends archived. */
  lemma ArchiveCompleteness(rows: Rows, ids: set<Feed.FeedId>, now: string)
    requires FlagsWellFormed(rows) && Feed.NullId !in ids
    ensures FlagsWellFormed(ArchivePass(rows, ids, now))
    ensures forall k | k in rows && Feed.Id(k) !in ids :: ArchivePass(rows, ids, now)[k].archived == Int(1)
  {
  }

  /** A second archive run with the same ids changes nothing, whatever its time. */
  lemma ArchivePassIdempotent(rows: Rows, ids: set<Feed.FeedId>, first: string, second: string)
    ensures ArchivePass(ArchivePass(rows, ids, first), ids, second) == ArchivePass(rows, ids, first)
  {
  }

  /** An empty feature list archives every row not yet archived. */
  lemma EmptyFeedArchivesEveryActiveRow(rows: Rows, now: string)
    ensures var r := ArchivePass(rows, {}, now);
      forall k | k in rows && rows[k].archived == Int(0) ::
        r[k] == rows[k].(archived := Int(1), dateArchived := Text(now))
  {
  }

  // ---------------------------------------------------------------------------
  // Step 4: stamp date_added where it is NULL

  function StampRow(r: Row, now: string): Row {
    if r.dateAdded == Null then r.(dateAdded := Text(now)) else r
  }

  /** The table after the date_added statement, run at time now. */
  function StampPass(rows: Rows, now: string): (r: Rows)
    ensures r.Keys == rows.Keys
    ensures forall k | k in r :: r[k].dateAdded != Null
    ensures forall k | k in rows && rows[k].dateAdded != Null :: r[k] == rows[k]
    ensures forall k | k in rows && rows[k].dateAdded == Null :: r[k] == rows[k].(dateAdded := Text(now))
  {
    map k | k in rows :: StampRow(rows[k], now)
  }

  /** A second stamping run changes nothing, whatever its time. */
  lemma StampPassIdempotent(rows: Rows, first: string, second: string)
    ensures StampPass(StampPass(rows, first), second) == StampPass(rows, first)
  {
  }

  // ---------------------------------------------------------------------------
  // main(), from line 61: the steps in order, one transaction

  /** What fetch_geojson left: nothing, or the file the loader has already upserted. */
  datatype Fetch = FetchFailed | Fetched(doc: Feed.Document)

  /** Why a run raised before commit. */
  datatype Abort = FeedError(failure: Feed.Failure) | TooManySqlVariables

  datatype Outcome = NotFetched | Committed | RolledBack(reason: Abort)

  /**
   * One run of main() on the table as the loader left it. SQLite refuses a
   * statement with more bound parameters than variableLimit; the archive
   * statement binds one per id and one for the time. An exception after the
   * first statement skips the commit, so the open transaction is rolled back.
   */
  function RunSpec(rows: Rows, fetch: Fetch, textCase: string -> Value, variableLimit: nat,
                   archiveNow: string, addedNow: string): (result: (Outcome, Rows))
    ensures result.1.Keys == rows.Keys
    ensures result.0.NotFetched? <==> fetch.FetchFailed?
    ensures result.0.Committed? <==>
      fetch.Fetched? && Feed.ExtractIds(fetch.doc).Ok? && |Feed.ExtractIds(fetch.doc).value| + 1 <= variableLimit
    ensures fetch.Fetched? && Feed.ExtractIds(fetch.doc).Err? ==>
      result.0 == RolledBack(FeedError(Feed.ExtractIds(fetch.doc).error))
    ensures fetch.Fetched? && Feed.ExtractIds(fetch.doc).Ok? && |Feed.ExtractIds(fetch.doc).value| + 1 > variableLimit ==>
      result.0 == RolledBack(TooManySqlVariables)
    ensures !result.0.Committed? ==> result.1 == rows
    ensures result.0.Committed? ==> forall k | k in result.1 :: result.1[k].dateAdded != Null
    ensures forall k | k in rows && rows[k].archived == Int(1) :: result.1[k].archived == Int(1)
    ensures FlagsWellFormed(rows) ==> FlagsWellFormed(result.1)
  {
    match fetch
    case FetchFailed => (NotFetched, rows)
    case Fetched(doc) =>
      match Feed.ExtractIds(doc)
      case Err(e) => (RolledBack(FeedError(e)), rows)
      case Ok(ids) =>
        if |ids| + 1 > variableLimit then (RolledBack(TooManySqlVariables), rows)
        else (Committed, RunPasses(rows, ids, textCase, archiveNow, addedNow))
  }

  /**
   * After a committed run, a row listed in the feed keeps its archived flag and
   * date_archived; with no NULL id in the feed, a row missing from it is archived,
   * stamped with the run's time if it was not archived before.
   */
  lemma CommittedRunPartitions(rows: Rows, doc: Feed.Document, textCase: string -> Value, variableLimit: nat,
                               archiveNow: string, addedNow: string, k: string)
    requires k in rows && FlagsWellFormed(rows)
    requires Feed.ExtractIds(doc).Ok? && |Feed.ExtractIds(doc).value| + 1 <= variableLimit
    ensures var ids := Feed.ExtractIds(doc).value;
      var after := RunSpec(rows, Fetched(doc), textCase, variableLimit, archiveNow, addedNow).1[k];
      && (Feed.Id(k) in ids ==> after.archived == rows[k].archived && after.dateArchived == rows[k].dateArchived)
      && (NotInFeed(k, ids) ==> after.archived == Int(1))
      && (NotInFeed(k, ids) && rows[k].archived == Int(0) ==> after.dateArchived == Text(archiveNow))
      && (Feed.NullId in ids ==> after.archived == rows[k].archived && after.dateArchived == rows[k].dateArchived)
  {
  }

  /** The three passes of a run, composed. */
  function RunPasses(rows: Rows, ids: set<Feed.FeedId>, textCase: string -> Value,
                     archiveNow: string, addedNow: string): Rows
  {
    StampPass(ArchivePass(NormalizePass(rows, textCase), ids, archiveNow), addedNow)
  }

  /** Passes run a second time with the same ids keep archived, date_archived and date_added. */
  lemma RerunPassesKeepArchival(rows: Rows, ids: set<Feed.FeedId>, textCase: string -> Value,
                                textCase2: string -> Value, t1: string, t2: string, t3: string, t4: string)
    ensures var first := RunPasses(rows, ids, textCase, t1, t2);
      var second := RunPasses(first, ids, textCase2, t3, t4);
      second.Keys == first.Keys &&
      forall k | k in first ::
        && second[k].archived == first[k].archived
        && second[k].dateArchived == first[k].dateArchived
        && second[k].dateAdded == first[k].dateAdded
  {
    var n1 := NormalizePass(rows, textCase);
    var a1 := ArchivePass(n1, ids, t1);
    var first := StampPass(a1, t2);
    var n2 := NormalizePass(first, textCase2);
    var a2 := ArchivePass(n2, ids, t3);
    var second := StampPass(a2, t4);
    forall k | k in first
      ensures second[k].archived == first[k].archived
      ensures second[k].dateArchived == first[k].dateArchived
      ensures second[k].dateAdded == first[k].dateAdded
    {
      assert first[k].archived == a1[k].archived && first[k].dateArchived == a1[k].dateArchived;
      if first[k].archived == Int(0) {
        assert !NeedsArchiving(k, n1[k], ids);
        assert !NotInFeed(k, ids);
      }
      assert a2[k] == n2[k];
    }
  }

  /**
   * A second committed run on the same feed, at any times, leaves archived,
   * date_archived and date_added as the first run left them. The timestamp
   * columns are not covered: they pass the normalisation WHERE clause again.
   */
  lemma RerunKeepsArchival(rows: Rows, doc: Feed.Document, textCase: string -> Value, textCase2: string -> Value,
                           variableLimit: nat, t1: string, t2: string, t3: string, t4: string)
    requires Feed.ExtractIds(doc).Ok? && |Feed.ExtractIds(doc).value| + 1 <= variableLimit
    ensures var first := RunSpec(rows, Fetched(doc), textCase, variableLimit, t1, t2);
      var second := RunSpec(first.1, Fetched(doc), textCase2, variableLimit, t3, t4);
      && second.0.Committed?
      && forall k | k in first.1 ::
        && second.1[k].archived == first.1[k].archived
        && second.1[k].dateArchived == first.1[k].dateArchived
        && second.1[k].dateAdded == first.1[k].dateAdded
  {
    RerunPassesKeepArchival(rows, Feed.ExtractIds(doc).value, textCase, textCase2, t1, t2, t3, t4);
  }

  /** The table and the steps main() runs on it, each step a pass over every row. */
  class Table {
    var rows: Rows

    constructor (loaded: Rows)
      ensures rows == loaded
    {
      rows := loaded;
    }

    method NormalizeTimestamps(textCase: string -> Value)
      modifies this
      ensures rows == NormalizePass(old(rows), textCase)
    {
      var pending := rows.Keys;
      while pending != {}
        invariant rows.Keys == old(rows).Keys && pending <= rows.Keys
        invariant forall k | k in rows ::
          rows[k] == if k in pending then old(rows)[k] else NormalizeRow(old(rows)[k], textCase)
        decreases pending
      {
        var k :| k in pending;
        var r := rows[k];
        if NeedsNormalizing(r) {
          rows := rows[k := r.(createdDate := Normalized(r.createdDate, textCase),
                               lastUpdate := Normalized(r.lastUpdate, textCase))];
        }
        pending := pending - {k};
      }
    }

    method ArchiveMissing(ids: set<Feed.FeedId>, now: string)
      modifies this
      ensures rows == ArchivePass(old(rows), ids, now)
    {
      var pending := rows.Keys;
      while pending != {}
        invariant rows.Keys == old(rows).Keys && pending <= rows.Keys
        invariant forall k | k in rows ::
          rows[k] == if k in pending then old(rows)[k] else ArchiveRow(k, old(rows)[k], ids, now)
        decreases pending
      {
        var k :| k in pending;
        if NotInFeed(k, ids) && rows[k].archived == Int(0) {
          rows := rows[k := rows[k].(archived := Int(1), dateArchived := Text(now))];
        }
        pending := pending - {k};
      }
    }

    method StampDateAdded(now: string)
      modifies this
      ensures rows == StampPass(old(rows), now)
    {
      var pending := rows.Keys;
      while pending != {}
        invariant rows.Keys == old(rows).Keys && pending <= rows.Keys
        invariant forall k | k in rows ::
          rows[k] == if k in pending then old(rows)[k] else StampRow(old(rows)[k], now)
        decreases pending
      {
        var k :| k in pending;
        if rows[k].dateAdded == Null {
          rows := rows[k := rows[k].(dateAdded := Text(now))];
        }
        pending := pending - {k};
      }
    }

    method Run(fetch: Fetch, textCase: string -> Value, variableLimit: nat, archiveNow: string, addedNow: string)
      returns (outcome: Outcome)
      modifies this
      ensures (outcome, rows) == RunSpec(old(rows), fetch, textCase, variableLimit, archiveNow, addedNow)
    {
      if fetch.FetchFailed? {
        return NotFetched;
      }
      var committed := rows;
      NormalizeTimestamps(textCase);
      var extracted := Feed.ExtractIds(fetch.doc);
      if extracted.Err? {
        rows := committed;
        return RolledBack(FeedError(extracted.error));
      }
      var ids := extracted.value;
      if |ids| + 1 > variableLimit {
        rows := committed;
        return RolledBack(TooManySqlVariables);
      }
      ArchiveMissing(ids, archiveNow);
      StampDateAdded(addedNow);
      outcome := Committed;
    }
  }
}
