/** The batched migration of monitor histories from a table to the key-value store, with saved progress,
    crashes at any write, and resumption. */
module Migration {
  import opened ByteText
  import opened HistoryStore
  import opened Sequences
  import opened Wrappers

  /** A row of the table; its time is kept as the text that the driver hands over. */
  datatype Row = Row(id: nat, monitorID: nat, createdAt: Bytes, json: string)

  /** batchSize below 1 means no limit. */
  datatype Config = Config(batchSize: int, progressInterval: nat, enableResume: bool)

  datatype Progress = Progress(processed: nat, lastProcessed: Option<nat>)

  const NO_PROGRESS := Progress(0, None)

  /** The compound key of a migrated row. */
  function RowKey(row: Row): Bytes {
    HISTORY + Digits(row.monitorID) + [COLON] + row.createdAt + [COLON] + Digits(row.id)
  }

  function RowValue(row: Row): string {
    row.json
  }

  /** Rows as the query delivers them: not deleted, by increasing id, and no id is 0. */
  predicate Ordered(table: seq<Row>) {
    && (forall i :: 0 <= i < |table| ==> table[i].id > 0)
    && (forall i, j :: 0 <= i < j < |table| ==> table[i].id < table[j].id)
  }

  lemma RowKeyShape(row: Row)
    ensures HISTORY <= RowKey(row)
    ensures var colon := LastColon(RowKey(row));
            0 < colon && colon + 1 < |RowKey(row)| && RowKey(row)[colon + 1..] == Digits(row.id)
  {
    var p := HISTORY + Digits(row.monitorID) + [COLON] + row.createdAt;
    DigitsAreDigits(row.id);
    LastColonOfJoin(p, Digits(row.id));
    SplitOfJoin(p, Digits(row.id));
  }

  /** Rows with different ids never share a key. */
  lemma RowKeysDiffer(a: Row, b: Row)
    requires RowKey(a) == RowKey(b)
    ensures a.id == b.id
  {
    RowKeyShape(a);
    RowKeyShape(b);
    DigitsInjective(a.id, b.id);
  }

  /** A monitor's scan meets exactly the rows of that monitor. */
  lemma MonitorPrefixMatchesRow(monitorID: nat, row: Row)
    ensures MonitorPrefix(monitorID) <= RowKey(row) <==> monitorID == row.monitorID
  {
    assert RowKey(row) == MonitorPrefix(row.monitorID) + (row.createdAt + [COLON] + Digits(row.id));
    if MonitorPrefix(monitorID) <= RowKey(row) {
      DigitsAreDigits(monitorID);
      DigitsAreDigits(row.monitorID);
      ColonEndsNumber(HISTORY, Digits(monitorID), Digits(row.monitorID), row.createdAt + [COLON] + Digits(row.id));
      DigitsInjective(monitorID, row.monitorID);
    }
  }

  /** Between the monitor and the id a key holds the row's time: rows of one monitor are ordered by the texts of their
      times, if these are equally wide, and rows of one time by those of their ids. */
  lemma RowsInTimeOrder(a: Row, b: Row)
    requires a.monitorID == b.monitorID && |a.createdAt| == |b.createdAt|
    ensures Less(RowKey(a), RowKey(b)) <==>
            Less(a.createdAt, b.createdAt) || (a.createdAt == b.createdAt && Less(Digits(a.id), Digits(b.id)))
  {
    var p, x, y := MonitorPrefix(a.monitorID), [COLON] + Digits(a.id), [COLON] + Digits(b.id);
    assert RowKey(a) == p + (a.createdAt + x) && RowKey(b) == p + (b.createdAt + y);
    LessAfterCommonPrefix(p, a.createdAt + x, b.createdAt + y);
    LessByFirstPart(a.createdAt, b.createdAt, x, y);
    LessAfterCommonPrefix([COLON], Digits(a.id), Digits(b.id));
  }

  /** A clean-up judges a migrated row by its id and not by its age: with a cutoff in nanoseconds, every
      migrated row with an ordinary id goes at the first clean-up. */
  lemma MigratedRowsExpireById(row: Row, cutoff: int)
    requires row.id <= MAX_INT64
    ensures Expired(RowKey(row), cutoff) <==> row.id <= cutoff
  {
    RowKeyShape(row);
    ParseIntRoundTrip(row.id);
  }

  function Written(table: seq<Row>): map<Bytes, string> {
    Layered(table, RowKey, RowValue)
  }

  lemma {:induction false} WrittenRow(table: seq<Row>, n: nat, i: nat)
    requires Ordered(table) && i < n <= |table|
    ensures RowKey(table[i]) in Written(table[..n]) && Written(table[..n])[RowKey(table[i])] == table[i].json
    decreases n
  {
    assert table[..n][..n - 1] == table[..n - 1];
    if i < n - 1 {
      WrittenRow(table, n - 1, i);
      if RowKey(table[i]) == RowKey(table[n - 1]) {
        RowKeysDiffer(table[i], table[n - 1]);
      }
    }
  }

  /** Writing row i over a store that holds the first w rows: nothing changes when the row is there already. */
  lemma WriteRow(base: map<Bytes, string>, table: seq<Row>, w: nat, i: nat)
    requires Ordered(table) && i <= w <= |table| && i < |table|
    ensures (base + Written(table[..w]))[RowKey(table[i]) := table[i].json]
            == base + Written(table[..if i == w then w + 1 else w])
  {
    if i == w {
      LayeredStep(base, table, w, RowKey, RowValue);
    } else {
      WrittenRow(table, w, i);
    }
  }

  /** How many rows an uninterrupted pass migrates: without resumption, only the first batch. */
  function Target(table: seq<Row>, config: Config): nat {
    if config.enableResume || config.batchSize <= 0 || |table| <= config.batchSize then |table| else config.batchSize
  }

  /** How a part of the pass ends: the table's database may fail, and the program may crash. */
  datatype Outcome = Done | Failed | Crashed

  class MigrationRun {
    // what a crash leaves
    var store: map<Bytes, string>
    var saved: Progress
    // what a crash loses
    var progress: Progress
    // the number of writes left until the next crash
    var writesLeft: nat
    // the number of queries and rows that the table's database answers before it fails
    var answersLeft: nat

    const table: seq<Row>
    const config: Config
    ghost const base: map<Bytes, string>
    ghost var written: nat      // how many rows have reached the store
    ghost var savedRows: nat    // how many of them the saved cursor is behind
    ghost var notedRows: nat    // ...and the cursor in memory

    /** The store holds a prefix of the rows, and neither cursor runs ahead of it. */
    ghost predicate Valid()
      reads this
    {
      && Ordered(table) && config.progressInterval >= 1
      && written <= Target(table, config)
      && store == base + Written(table[..written])
      && Notes(saved, savedRows) && Notes(progress, notedRows)
      && (!config.enableResume ==> saved == NO_PROGRESS)
    }

    function LastOf(n: nat): Option<nat>
      requires n <= |table|
    {
      if n == 0 then None else Some(table[n - 1].id)
    }

    /** The cursor is behind the first n rows, which have been written. The count may be ahead of it, because it is
        kept up to date row by row and the cursor is not. */
    ghost predicate Notes(p: Progress, n: nat)
      reads this
    {
      n <= written && n <= |table| && n <= p.processed && p.lastProcessed == LastOf(n)
    }

    constructor (store0: map<Bytes, string>, table: seq<Row>, config: Config)
      requires Ordered(table) && config.progressInterval >= 1
      ensures Valid() && this.table == table && this.config == config && base == store0 && store == store0
    {
      this.table, this.config := table, config;
      store, base := store0, store0;
      saved, progress := NO_PROGRESS, NO_PROGRESS;
      writesLeft, answersLeft, written, savedRows, notedRows := 0, 0, 0, 0, 0;
      new;
      assert Written(table[..0]) == map[];
    }

    /** Writes one row; ok is false when the program crashes instead. */
    method PutRow(i: nat) returns (ok: bool)
      requires Valid() && i <= written && i < Target(table, config)
      modifies this`store, this`written, this`writesLeft
      ensures Valid() && written >= old(written)
      ensures ok <==> old(writesLeft) > 0
      ensures ok ==> i < written && writesLeft == old(writesLeft) - 1
    {
      if writesLeft == 0 {
        return false;
      }
      writesLeft := writesLeft - 1;
      WriteRow(base, table, written, i);
      store := store[RowKey(table[i]) := table[i].json];
      if i == written {
        written := written + 1;
      }
      return true;
    }

    method SaveProgress() returns (ok: bool)
      requires Valid() && config.enableResume
      modifies this`saved, this`savedRows, this`writesLeft
      ensures Valid()
      ensures ok <==> old(writesLeft) > 0
      ensures ok ==> saved == progress && savedRows == notedRows && writesLeft == old(writesLeft) - 1
      ensures !ok ==> saved == old(saved) && savedRows == old(savedRows)
    {
      if writesLeft == 0 {
        return false;
      }
      writesLeft := writesLeft - 1;
      saved, savedRows := progress, notedRows;
      return true;
    }

    /** Notes how far the pass has come and, every progressInterval rows, saves it. */
    method UpdateProgress(lastID: Option<nat>, ghost n: nat) returns (ok: bool)
      requires Valid() && n <= written && n <= progress.processed && lastID == LastOf(n)
      modifies this`progress, this`notedRows, this`saved, this`savedRows, this`writesLeft
      ensures Valid() && notedRows == n
      ensures progress == Progress(old(progress).processed, lastID)
      ensures if ok && config.enableResume && progress.processed % config.progressInterval == 0
              then saved == progress && savedRows == n
              else saved == old(saved) && savedRows == old(savedRows)
      ensures old(writesLeft) > 0 ==> ok
      ensures ok ==> writesLeft + 1 >= old(writesLeft)
    {
      progress, notedRows := progress.(lastProcessed := lastID), n;
      ok := true;
      if config.enableResume && progress.processed % config.progressInterval == 0 {
        ok := SaveProgress();
      }
    }

    /** One row: it is written, counted, and every progressInterval rows the progress is noted. */
    method MigrateRow(i: nat) returns (r: Outcome)
      requires Valid() && i <= written && i < Target(table, config) && i <= progress.processed
      modifies this
      ensures Valid() && written >= old(written)
      ensures r.Done? ==> i < written && i < progress.processed
      ensures r.Done? ==> writesLeft + 2 >= old(writesLeft) && answersLeft + 1 == old(answersLeft)
      ensures old(writesLeft) >= 2 ==> !r.Crashed?
      ensures old(answersLeft) >= 1 ==> !r.Failed?
    {
      if answersLeft == 0 {
        return Failed;
      }
      answersLeft := answersLeft - 1;
      var ok := PutRow(i);
      if ok {
        progress := progress.(processed := progress.processed + 1);
        if progress.processed % config.progressInterval == 0 {
          ok := UpdateProgress(Some(table[i].id), i + 1);
        }
      }
      r := if ok then Done else Crashed;
    }

    /** One batch: the query, and the rows from one position to another. */
    method MigrateBatch(from: nat, to: nat) returns (r: Outcome, lastID: Option<nat>)
      requires Valid() && from <= to <= Target(table, config)
      requires from == notedRows
      modifies this
      ensures Valid() && written >= old(written)
      ensures r.Done? ==> to <= written && to <= progress.processed
      ensures r.Done? ==> lastID == if to == from then None else LastOf(to)
      ensures r.Done? && to == from ==> notedRows == from
      ensures r.Done? ==> writesLeft + 2 * (to - from) >= old(writesLeft)
      ensures r.Done? ==> answersLeft + 1 + (to - from) == old(answersLeft)
      ensures old(writesLeft) >= 2 * (to - from) ==> !r.Crashed?
      ensures old(answersLeft) > to - from ==> !r.Failed?
    {
      lastID := None;
      if answersLeft == 0 {
        r := Failed;
        return;
      }
      answersLeft := answersLeft - 1;
      r := Done;
      var i := from;
      while i < to
        invariant from <= i <= to && r.Done?
        invariant Valid() && written >= old(written)
        invariant i <= written && i <= progress.processed
        invariant lastID == if i == from then None else LastOf(i)
        invariant i == from ==> notedRows == from
        invariant writesLeft + 2 * (i - from) >= old(writesLeft)
        invariant answersLeft + 1 + (i - from) == old(answersLeft)
      {
        lastID := Some(table[i].id);
        r := MigrateRow(i);
        if !r.Done? {
          return;
        }
        i := i + 1;
      }
    }

    /** One start of the program: saved progress is loaded, and the pass runs until it is done, or the table's database
        fails after some answers, or the program crashes at the writes-th write. Unless it crashes it closes, which
        saves the progress once more, also that of a failed batch. */
    method Migrate(writes: nat, answers: nat) returns (finished: bool)
      requires Valid()
      modifies this
      ensures Valid() && written >= old(written)
      ensures finished ==> written == Target(table, config)
      ensures writes > 3 * |table| && answers > 2 * |table| ==> finished
    {
      var from := LoadProgress(writes, answers);
      ghost var first := from;
      while true
        invariant Valid() && written >= old(written)
        invariant first <= from == notedRows
        invariant writesLeft + 3 * (from - first) >= writes
        invariant answersLeft + 2 * (from - first) >= answers
        invariant !config.enableResume ==> from == 0
        decreases |table| - from
      {
        var to :=
          if config.batchSize > 0 && from + config.batchSize < |table| then from + config.batchSize else |table|;
        var r, lastID := MigrateBatch(from, to);
        if r.Failed? {
          Close();
          return false;
        } else if r.Crashed? {
          return false;
        }
        if from == to {
          break;
        }
        if config.enableResume && lastID.Some? {
          var ok := UpdateProgress(lastID, to);
          if !ok {
            return false;
          }
          from := FirstAfter(lastID, to);
        } else {
          break;
        }
      }
      finished := Finish();
    }

    /** A start: the saved progress is loaded if the pass may resume, and the pass begins behind its cursor. */
    method LoadProgress(writes: nat, answers: nat) returns (from: nat)
      requires Valid()
      modifies this`progress, this`notedRows, this`writesLeft, this`answersLeft
      ensures Valid() && from == notedRows && writesLeft == writes && answersLeft == answers
      ensures if config.enableResume then from == savedRows && progress == saved
              else from == 0 && progress == NO_PROGRESS
    {
      writesLeft, answersLeft := writes, answers;
      if config.enableResume {
        progress, notedRows := saved, savedRows;
      } else {
        progress, notedRows := NO_PROGRESS, 0;
      }
      from := FirstAfter(progress.lastProcessed, notedRows);
    }

    /** The final update of the progress. */
    method Finish() returns (ok: bool)
      requires Valid()
      modifies this`progress, this`notedRows, this`saved, this`savedRows, this`writesLeft
      ensures Valid()
      ensures old(writesLeft) > 0 ==> ok
    {
      ok := UpdateProgress(progress.lastProcessed, notedRows);
      if ok {
        Close();
      }
    }

    /** Closing saves the progress as it is. */
    method Close()
      requires Valid()
      modifies this`saved, this`savedRows, this`writesLeft
      ensures Valid()
      ensures config.enableResume && old(writesLeft) > 0 ==> saved == progress && savedRows == notedRows
    {
      if config.enableResume {
        var ok := SaveProgress();
      }
    }

    /** WHERE id > last ORDER BY id: the position of the first row behind the cursor, which is the row after
        the one that the cursor was taken from. */
    method FirstAfter(last: Option<nat>, ghost n: nat) returns (i: nat)
      requires Ordered(table) && n <= |table| && last == LastOf(n)
      ensures i == n
    {
      i := 0;
      if last.Some? {
        while i < |table| && table[i].id <= last.value
          invariant i <= n
        {
          i := i + 1;
        }
      }
    }

    /** Crashes, failures and restarts, in any number and at any point; each start has its number of writes until the
        next crash and of answers until the next failure. The store ends as one uninterrupted pass leaves it as soon as
        the last start gets through, however the earlier ones ended. */
    method MigrateThroughCrashes(starts: seq<(nat, nat)>) returns (finished: bool)
      requires Valid() && starts != []
      modifies this
      ensures Valid()
      ensures finished ==> store == base + Written(table[..Target(table, config)])
      ensures starts[|starts| - 1].0 > 3 * |table| && starts[|starts| - 1].1 > 2 * |table| ==> finished
    {
      finished := false;
      for i := 0 to |starts|
        invariant Valid()
        invariant finished ==> written == Target(table, config)
        invariant i > 0 && starts[i - 1].0 > 3 * |table| && starts[i - 1].1 > 2 * |table| ==> finished
      {
        finished := Migrate(starts[i].0, starts[i].1);
      }
    }
  }

  /** A finished pass has migrated the whole table exactly when it may resume, has no batch limit, or the
      first batch is the whole table: without resumption it stops after one batch and reports success. */
  lemma FinishedIsCompleteExactly(base: map<Bytes, string>, table: seq<Row>, config: Config)
    requires Ordered(table) && forall row :: row in table ==> RowKey(row) !in base
    ensures base + Written(table[..Target(table, config)]) == base + Written(table)
            <==> config.enableResume || config.batchSize <= 0 || |table| <= config.batchSize
  {
    var t := Target(table, config);
    assert table[..|table|] == table;
    if t < |table| {
      WrittenRow(table, |table|, t);
      if RowKey(table[t]) in Written(table[..t]) {
        var row := LayeredSource(table[..t], RowKey, RowValue, RowKey(table[t]));
        RowKeysDiffer(row, table[t]);
      }
      assert RowKey(table[t]) !in base + Written(table[..t]);
    }
  }
}
