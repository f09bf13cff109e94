/**
 * The load step of the ETL pipeline: read the batch file, transform it and
 * insert every row into the append-only `stock_history` log inside one
 * database transaction that is committed only after the last insert.
 */
module Loader {
  import opened Stock

  /** The `stock_history` table as seen through one connection: the rows
      already committed, and the rows inserted by the open transaction. */
  class HistoryTable {
    var rows: seq<HistoryRecord>
    var pending: seq<HistoryRecord>

    constructor (initial: seq<HistoryRecord>)
      ensures rows == initial && pending == []
    {
      rows := initial;
      pending := [];
    }

    /** `cursor.execute(INSERT ...)`: the row joins the open transaction. */
    method Insert(r: HistoryRecord)
      modifies this
      ensures rows == old(rows)
      ensures pending == old(pending) + [r]
    {
      pending := pending + [r];
    }

    /** `conn.commit()`: the transaction's rows are appended to the log. */
    method Commit()
      modifies this
      ensures rows == old(rows) + old(pending)
      ensures pending == []
    {
      rows := rows + pending;
      pending := [];
    }

    /** The connection is dropped without a commit: the server discards the
        open transaction. */
    method Abandon()
      modifies this
      ensures rows == old(rows)
      ensures pending == []
    {
      pending := [];
    }
  }

  /** What reading `stock_data.json` gives. `Unreadable` stands for every
      failure before the connection is opened: `json.load` fails, the data is
      not a list of records, or the `stock_count` column of a non-empty batch
      is missing or non-numeric. A batch whose records lack another inserted
      field raises only at the first insert, after connecting, and is a
      `Batch` run under `ConnectFails(true)` or `InsertFails(0, false)`; `area` is
      never read. */
  datatype BatchFile = Missing | Unreadable | Batch(records: seq<Observation>)

  /** The database's behaviour during one run: opening the connection can
      raise, or the insert of row `at` can raise; `operational` tells whether
      the exception is an `OperationalError` (a connection error) rather than
      any other exception. */
  datatype DbFault = NoFault | ConnectFails(operational: bool) | InsertFails(at: nat, operational: bool)

  /** The four outcomes the endpoint reports as a message. */
  datatype EtlOutcome = Loaded(count: nat) | FileNotFound | DbConnectionError | EtlError

  /** A frame with no `stock_count` column: the empty batch builds one. */
  predicate LacksCountColumn(batch: seq<Observation>)
  {
    batch == []
  }

  /** Whether the insert loop over `n` rows stops at some row. */
  predicate InsertFailsWithin(fault: DbFault, n: nat)
  {
    fault.InsertFails? && fault.at < n
  }

  /**
   * The ETL run. On success every observation of the batch is appended to
   * the log, transformed, in input order, and the count reported is the
   * batch length; on any failure the log is unchanged.
   */
  method EtlProcess(table: HistoryTable, file: BatchFile, fault: DbFault) returns (outcome: EtlOutcome)
    requires table.pending == []
    modifies table
    ensures table.pending == []
    ensures outcome == FileNotFound <==> file.Missing?
    ensures outcome == DbConnectionError <==>
              file.Batch? && !LacksCountColumn(file.records) &&
              ((fault.ConnectFails? || InsertFailsWithin(fault, |file.records|)) && fault.operational)
    ensures outcome == EtlError <==>
              file.Unreadable? || (file.Batch? && LacksCountColumn(file.records)) ||
              (file.Batch? && !LacksCountColumn(file.records) &&
               (fault.ConnectFails? || InsertFailsWithin(fault, |file.records|)) && !fault.operational)
    ensures outcome.Loaded? ==> file.Batch? && outcome.count == |file.records| > 0
    ensures outcome.Loaded? ==> table.rows == old(table.rows) + TransformBatch(file.records)
    ensures !outcome.Loaded? ==> table.rows == old(table.rows)
  {
    if file.Missing? {
      return FileNotFound;
    }
    if file.Unreadable? || LacksCountColumn(file.records) {
      return EtlError;
    }
    var df := TransformBatch(file.records);
    if fault.ConnectFails? {
      return if fault.operational then DbConnectionError else EtlError;
    }
    var i := 0;
    while i < |df|
      invariant 0 <= i <= |df|
      invariant table.rows == old(table.rows)
      invariant table.pending == df[..i]
      invariant !(fault.InsertFails? && fault.at < i)
    {
      if fault.InsertFails? && fault.at == i {
        table.Abandon();
        return if fault.operational then DbConnectionError else EtlError;
      }
      table.Insert(df[i]);
      assert df[..i + 1] == df[..i] + [df[i]];
      i := i + 1;
    }
    assert df[..i] == df;
    table.Commit();
    outcome := Loaded(|df|);
  }
}
