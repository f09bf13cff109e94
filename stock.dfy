/**
 * The transform step of the ETL pipeline: every stock observation is
 * annotated with its days of inventory (DOI) and an out-of-stock alert flag.
 */
module Stock {

  /** Assumed units sold per day, used to turn a stock count into days. */
  const DailySalesGuess: int := 10
  /** A DOI strictly below this many days raises the alert. */
  const OosAlertThresholdDays: int := 3

  /** One entry of the batch file written by the simulator. Timestamps are
      instants as integers (later is larger). */
  datatype Observation = Observation(
    timestamp: int,
    area: string,
    storeId: string,
    product: string,
    status: string,
    count: int,
    price: real)

  /** One row of the append-only `stock_history` table. */
  datatype HistoryRecord = HistoryRecord(
    timestamp: int,
    storeId: string,
    productName: string,
    status: string,
    count: int,
    price: real,
    doi: real,
    alert: bool)

  /** Days of inventory: the stock count divided by the daily sales guess. */
  function DaysOfInventory(count: int): (doi: real)
    ensures doi * DailySalesGuess as real == count as real
    ensures count >= 0 ==> doi >= 0.0
  {
    count as real / DailySalesGuess as real
  }

  /** The alert rule: empty shelf, or fewer days of stock than the threshold. */
  predicate IsOosAlert(count: int, doi: real)
  {
    count == 0 || doi < OosAlertThresholdDays as real
  }

  /** With the fixed constants the alert is exactly "fewer than 30 units". */
  lemma AlertIffBelowThirty(count: int)
    ensures IsOosAlert(count, DaysOfInventory(count)) <==> count < 30
    ensures count == 0 ==> IsOosAlert(count, DaysOfInventory(count))
  {
    var doi := DaysOfInventory(count);
    assert doi * 10.0 == count as real;
    if count < 30 {
      assert count as real < 30.0;
      assert doi < 3.0;
    } else {
      assert count as real >= 30.0;
      assert doi >= 3.0;
    }
  }

  /** The transformed history row for one observation; the `area` field of
      the observation is not stored. */
  function Transform(o: Observation): (r: HistoryRecord)
    ensures r.timestamp == o.timestamp && r.storeId == o.storeId
    ensures r.productName == o.product && r.status == o.status
    ensures r.count == o.count && r.price == o.price
    ensures r.doi * DailySalesGuess as real == o.count as real
    ensures r.alert <==> o.count < 30
    ensures o.count == 0 ==> r.alert
  {
    AlertIffBelowThirty(o.count);
    var doi := DaysOfInventory(o.count);
    HistoryRecord(o.timestamp, o.storeId, o.product, o.status, o.count, o.price,
                  doi, IsOosAlert(o.count, doi))
  }

  /** The column-wise transform of a whole batch, row by row in input order. */
  function TransformBatch(batch: seq<Observation>): (rows: seq<HistoryRecord>)
    ensures |rows| == |batch|
    ensures forall i :: 0 <= i < |batch| ==> rows[i] == Transform(batch[i])
  {
    seq(|batch|, i requires 0 <= i < |batch| => Transform(batch[i]))
  }

  /** Every transformed row carries the derived fields the rule prescribes. */
  lemma TransformBatchRule(batch: seq<Observation>)
    ensures forall r :: r in TransformBatch(batch) ==>
              r.doi * DailySalesGuess as real == r.count as real && (r.alert <==> IsOosAlert(r.count, r.doi))
  {
    forall r | r in TransformBatch(batch)
      ensures r.doi * DailySalesGuess as real == r.count as real && (r.alert <==> IsOosAlert(r.count, r.doi))
    {
      var i :| 0 <= i < |batch| && TransformBatch(batch)[i] == r;
      AlertIffBelowThirty(batch[i].count);
    }
  }
}
