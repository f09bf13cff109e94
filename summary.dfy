/**
 * The area summary endpoint: over the latest record of every
 * (store, product) of an area, count the out-of-stock records and the
 * records that alert without being out of stock, and render the second
 * count as a message.
 */
module Summary {
  import opened Wrappers
  import opened Stock
  import opened Latest

  const OosStatus: string := "OOS"

  /** `sum(1 for status, alert in latest if status == 'OOS')` */
  function CountOos(ls: seq<HistoryRecord>): (n: nat)
    ensures n <= |ls|
  {
    if ls == [] then 0
    else CountOos(ls[..|ls| - 1]) + (if ls[|ls| - 1].status == OosStatus then 1 else 0)
  }

  /** `sum(1 for status, alert in latest if alert == True and status != 'OOS')` */
  function CountLowAlert(ls: seq<HistoryRecord>): (n: nat)
    ensures n <= |ls|
  {
    if ls == [] then 0
    else CountLowAlert(ls[..|ls| - 1]) + (if IsLowAlert(ls[|ls| - 1]) then 1 else 0)
  }

  /** A record that alerts without being out of stock. */
  predicate IsLowAlert(r: HistoryRecord)
  {
    r.alert && r.status != OosStatus
  }

  /** A record reported out of stock. */
  predicate IsOos(r: HistoryRecord)
  {
    r.status == OosStatus
  }

  /** The positions of the out-of-stock records. */
  function OosPositions(ls: seq<HistoryRecord>): set<int>
  {
    set i | 0 <= i < |ls| && IsOos(ls[i])
  }

  /** The positions of the records that alert without being out of stock. */
  function LowAlertPositions(ls: seq<HistoryRecord>): set<int>
  {
    set i | 0 <= i < |ls| && IsLowAlert(ls[i])
  }

  /** The out-of-stock count is the number of out-of-stock records. */
  lemma {:induction false} CountOosIsCardinality(ls: seq<HistoryRecord>)
    ensures CountOos(ls) == |OosPositions(ls)|
  {
    if ls != [] {
      CountOosIsCardinality(ls[..|ls| - 1]);
      OosPositionsSnoc(ls);
    }
  }

  lemma OosPositionsSnoc(ls: seq<HistoryRecord>)
    requires ls != []
    ensures |OosPositions(ls)| ==
              |OosPositions(ls[..|ls| - 1])| + if IsOos(ls[|ls| - 1]) then 1 else 0
  {
    var init := ls[..|ls| - 1];
    var last := |ls| - 1;
    assert forall i :: 0 <= i < last ==> init[i] == ls[i];
    assert OosPositions(init) == set i | 0 <= i < last && IsOos(ls[i]);
    if IsOos(ls[last]) {
      assert OosPositions(ls) == OosPositions(init) + {last};
    } else {
      assert OosPositions(ls) == OosPositions(init);
    }
  }

  /** The low-alert count is the number of records that alert without being
      out of stock. */
  lemma {:induction false} CountLowAlertIsCardinality(ls: seq<HistoryRecord>)
    ensures CountLowAlert(ls) == |LowAlertPositions(ls)|
  {
    if ls != [] {
      CountLowAlertIsCardinality(ls[..|ls| - 1]);
      LowAlertPositionsSnoc(ls);
    }
  }

  lemma LowAlertPositionsSnoc(ls: seq<HistoryRecord>)
    requires ls != []
    ensures |LowAlertPositions(ls)| ==
              |LowAlertPositions(ls[..|ls| - 1])| + if IsLowAlert(ls[|ls| - 1]) then 1 else 0
  {
    var init := ls[..|ls| - 1];
    var last := |ls| - 1;
    assert forall i :: 0 <= i < last ==> init[i] == ls[i];
    assert LowAlertPositions(init) == set i | 0 <= i < last && IsLowAlert(ls[i]);
    if IsLowAlert(ls[last]) {
      assert LowAlertPositions(ls) == LowAlertPositions(init) + {last};
    } else {
      assert LowAlertPositions(ls) == LowAlertPositions(init);
    }
  }

  /** The two categories never overlap, so together they count at most one
      per latest record. */
  lemma {:induction false} CountsDisjoint(ls: seq<HistoryRecord>)
    ensures CountOos(ls) + CountLowAlert(ls) <= |ls|
  {
    if ls != [] {
      CountsDisjoint(ls[..|ls| - 1]);
    }
  }

  /** The low-alert count is zero exactly when every alerting record is
      already out of stock. */
  lemma {:induction false} NoLowAlertIff(ls: seq<HistoryRecord>)
    ensures CountLowAlert(ls) == 0 <==> forall r :: r in ls && r.alert ==> r.status == OosStatus
  {
    if ls != [] {
      var init := ls[..|ls| - 1];
      NoLowAlertIff(init);
      assert forall r :: r in ls <==> r == ls[|ls| - 1] || r in init;
    }
  }

  /** The out-of-stock count is zero exactly when no record is out of stock. */
  lemma {:induction false} NoOosIff(ls: seq<HistoryRecord>)
    ensures CountOos(ls) == 0 <==> forall r :: r in ls ==> r.status != OosStatus
  {
    if ls != [] {
      var init := ls[..|ls| - 1];
      NoOosIff(init);
      assert forall r :: r in ls <==> r == ls[|ls| - 1] || r in init;
    }
  }

  predicate IsDigit(c: char)
  {
    '0' <= c <= '9'
  }

  predicate AllDigits(s: string)
  {
    forall i :: 0 <= i < |s| ==> IsDigit(s[i])
  }

  /** Python's `str(n)` for a natural number: decimal, no leading zero. */
  function NatToDecimal(n: nat): (s: string)
    ensures |s| >= 1 && AllDigits(s)
    ensures s[0] == '0' ==> n == 0
  {
    var d := (48 + n % 10) as char;
    if n < 10 then [d] else NatToDecimal(n / 10) + [d]
  }

  /** The value of a string of decimal digits. */
  function DecimalValue(s: string): nat
    requires AllDigits(s)
  {
    if s == [] then 0
    else DecimalValue(s[..|s| - 1]) * 10 + (s[|s| - 1] as int - 48)
  }

  lemma {:induction false} DecimalRoundTrip(n: nat)
    ensures DecimalValue(NatToDecimal(n)) == n
  {
    var s := NatToDecimal(n);
    if n >= 10 {
      DecimalRoundTrip(n / 10);
      assert s[..|s| - 1] == NatToDecimal(n / 10);
    }
  }

  const LowPrefix: string := "Low in "
  const LowSuffix: string := " store(s)"
  const NoAlert: string := "None"

  /** The `doi_alert` text: `"Low in {n} store(s)"`, or `"None"` for zero. */
  function AlertMessage(n: nat): (m: string)
    ensures m == NoAlert <==> n == 0
    ensures n > 0 ==> |m| > |LowPrefix| + |LowSuffix| && m[..|LowPrefix|] == LowPrefix
  {
    if n > 0 then LowPrefix + NatToDecimal(n) + LowSuffix else NoAlert
  }

  /** Reading the count back out of an alert message, as a client would. */
  function AlertCountOf(m: string): Option<nat>
  {
    if m == NoAlert then Some(0)
    else if |m| > |LowPrefix| + |LowSuffix| && m[..|LowPrefix|] == LowPrefix
         && m[|m| - |LowSuffix|..] == LowSuffix && AllDigits(m[|LowPrefix|..|m| - |LowSuffix|])
    then Some(DecimalValue(m[|LowPrefix|..|m| - |LowSuffix|]))
    else None
  }

  /** The message determines the count: distinct counts give distinct
      messages. */
  lemma AlertMessageRoundTrip(n: nat)
    ensures AlertCountOf(AlertMessage(n)) == Some(n)
  {
    if n > 0 {
      var m := AlertMessage(n);
      var digits := NatToDecimal(n);
      assert m[..|LowPrefix|] == LowPrefix;
      assert m[|m| - |LowSuffix|..] == LowSuffix;
      assert m[|LowPrefix|..|m| - |LowSuffix|] == digits;
      DecimalRoundTrip(n);
    }
  }

  /** The response of `GET /api/stock?area=...`. */
  datatype StockResponse =
    | MissingAreaError
    | InternalError
    | AreaSummary(area: string, oosProducts: nat, doiAlert: string)

  /** `not area_code`: the parameter is absent or empty. */
  predicate AreaMissing(area: Option<string>)
  {
    area.None? || area.value == ""
  }

  /**
   * The summary endpoint. `db` is `None` when connecting or querying raises.
   * A missing area is answered before the database is touched; otherwise
   * the counts are taken over the area's latest records.
   */
  function GetStockSummary(area: Option<string>, db: Option<Database>): (r: StockResponse)
    ensures r.MissingAreaError? <==> AreaMissing(area)
    ensures r.InternalError? <==> !AreaMissing(area) && db.None?
    ensures r.AreaSummary? ==>
              var latest := LatestRecords(db.value, area.value);
              && r.area == area.value
              && r.oosProducts == |OosPositions(latest)|
              && r.doiAlert == AlertMessage(|LowAlertPositions(latest)|)
              && AlertCountOf(r.doiAlert).Some?
              && r.oosProducts + AlertCountOf(r.doiAlert).value <= |latest|
              && (r.oosProducts == 0 <==> forall l :: l in latest ==> l.status != OosStatus)
              && (r.doiAlert == NoAlert <==> forall l :: l in latest && l.alert ==> l.status == OosStatus)
  {
    if AreaMissing(area) then MissingAreaError
    else if db.None? then InternalError
    else
      var latest := LatestRecords(db.value, area.value);
      var lowCount := CountLowAlert(latest);
      CountsDisjoint(latest);
      NoLowAlertIff(latest);
      NoOosIff(latest);
      CountOosIsCardinality(latest);
      CountLowAlertIsCardinality(latest);
      AlertMessageRoundTrip(lowCount);
      AreaSummary(area.value, CountOos(latest), AlertMessage(lowCount))
  }
}
