/**
 * The "latest snapshot" selection both read endpoints run in SQL:
 *   ROW_NUMBER() OVER (PARTITION BY store_id, product_name
 *                      ORDER BY timestamp DESC) = 1
 * over the history rows of the stores of one area.
 */
module Latest {
  import opened Stock
  import opened Unique

  /** A row of the static `stores` reference table. */
  datatype Store = Store(storeId: string, storeName: string, areaCode: string)

  /** Read-side state: the history log and the stores table. */
  datatype Database = Database(history: seq<HistoryRecord>, stores: seq<Store>)

  /** The partition key of the window. */
  type Key = (string, string)

  function KeyOf(r: HistoryRecord): Key
  {
    (r.storeId, r.productName)
  }

  /** Some row of the stores table has this id and lies in the area. */
  predicate InArea(stores: seq<Store>, area: string, storeId: string)
  {
    exists s :: s in stores && s.storeId == storeId && s.areaCode == area
  }

  /** The history rows that survive `JOIN stores s ... WHERE s.area_code = area`,
      in log order. (A store id listed twice in the area would duplicate its
      joined rows; the duplicates share their partition and so do not change
      which rows get rank 1.) */
  function AreaHistory(history: seq<HistoryRecord>, stores: seq<Store>, area: string): (rs: seq<HistoryRecord>)
    ensures forall r :: r in rs <==> r in history && InArea(stores, area, r.storeId)
  {
    if history == [] then []
    else
      var init := history[..|history| - 1];
      var last := history[|history| - 1];
      assert history == init + [last];
      AreaHistory(init, stores, area) + (if InArea(stores, area, last.storeId) then [last] else [])
  }

  function KeysOf(rs: seq<HistoryRecord>): (ks: seq<Key>)
  {
    seq(|rs|, i requires 0 <= i < |rs| => KeyOf(rs[i]))
  }

  /** One partition: the rows with key `k`, in order. */
  function Group(rs: seq<HistoryRecord>, k: Key): (g: seq<HistoryRecord>)
    ensures forall r :: r in g <==> r in rs && KeyOf(r) == k
  {
    if rs == [] then []
    else
      (if KeyOf(rs[0]) == k then [rs[0]] else []) + Group(rs[1..], k)
  }

  /** The row ranked first by `ORDER BY timestamp DESC`. SQL breaks ties
      arbitrarily; this picks the earliest-logged of the newest rows. */
  function Newest(g: seq<HistoryRecord>): (r: HistoryRecord)
    requires |g| > 0
    ensures r in g
    ensures forall x :: x in g ==> x.timestamp <= r.timestamp
  {
    if |g| == 1 then g[0]
    else
      var rest := Newest(g[1..]);
      assert forall x :: x in g ==> x == g[0] || x in g[1..];
      if g[0].timestamp >= rest.timestamp then g[0] else rest
  }

  function NewestOfKey(rs: seq<HistoryRecord>, k: Key): (r: HistoryRecord)
    requires k in KeysOf(rs)
    ensures r in rs && KeyOf(r) == k
    ensures forall x :: x in rs && KeyOf(x) == k ==> x.timestamp <= r.timestamp
  {
    var i :| 0 <= i < |rs| && KeysOf(rs)[i] == k;
    assert rs[i] in Group(rs, k);
    Newest(Group(rs, k))
  }

  /** The rank-1 rows of a set of partitions: one per key, in order of the
      key's first appearance; each is a newest row of its partition. */
  function LatestOf(rs: seq<HistoryRecord>): (l: seq<HistoryRecord>)
    ensures forall r :: r in l ==> r in rs
    ensures forall i, j :: 0 <= i < j < |l| ==> KeyOf(l[i]) != KeyOf(l[j])
    ensures forall r :: r in rs ==> exists j :: 0 <= j < |l| && KeyOf(l[j]) == KeyOf(r)
    ensures forall j, r :: 0 <= j < |l| && r in rs && KeyOf(r) == KeyOf(l[j]) ==>
              r.timestamp <= l[j].timestamp
  {
    var ks := FirstSeen(KeysOf(rs));
    FirstSeenFrom(KeysOf(rs));
    var l := seq(|ks|, i requires 0 <= i < |ks| => NewestOfKey(rs, ks[i]));
    LatestFromPartitions(rs, ks, l);
    LatestKeysDistinct(rs, ks, l);
    LatestCoversEveryKey(rs, ks, l);
    LatestIsNewest(rs, ks, l);
    l
  }

  // The four lemmas below each prove one clause of LatestOf's contract.

  lemma LatestFromPartitions(rs: seq<HistoryRecord>, ks: seq<Key>, l: seq<HistoryRecord>)
    requires ks == FirstSeen(KeysOf(rs)) && forall i :: 0 <= i < |ks| ==> ks[i] in KeysOf(rs)
    requires |l| == |ks| && forall i :: 0 <= i < |ks| ==> l[i] == NewestOfKey(rs, ks[i])
    ensures forall r :: r in l ==> r in rs
  {
  }

  lemma LatestKeysDistinct(rs: seq<HistoryRecord>, ks: seq<Key>, l: seq<HistoryRecord>)
    requires ks == FirstSeen(KeysOf(rs)) && forall i :: 0 <= i < |ks| ==> ks[i] in KeysOf(rs)
    requires |l| == |ks| && forall i :: 0 <= i < |ks| ==> l[i] == NewestOfKey(rs, ks[i])
    ensures forall i, j :: 0 <= i < j < |l| ==> KeyOf(l[i]) != KeyOf(l[j])
  {
    FirstSeenDistinct(KeysOf(rs));
    assert forall j :: 0 <= j < |l| ==> KeyOf(l[j]) == ks[j];
  }

  lemma LatestCoversEveryKey(rs: seq<HistoryRecord>, ks: seq<Key>, l: seq<HistoryRecord>)
    requires ks == FirstSeen(KeysOf(rs)) && forall i :: 0 <= i < |ks| ==> ks[i] in KeysOf(rs)
    requires |l| == |ks| && forall i :: 0 <= i < |ks| ==> l[i] == NewestOfKey(rs, ks[i])
    ensures forall r :: r in rs ==> exists j :: 0 <= j < |l| && KeyOf(l[j]) == KeyOf(r)
  {
    forall r | r in rs ensures exists j :: 0 <= j < |l| && KeyOf(l[j]) == KeyOf(r) {
      var i :| 0 <= i < |rs| && rs[i] == r;
      assert KeysOf(rs)[i] == KeyOf(r);
      FirstSeenMember(KeysOf(rs), KeyOf(r));
      var j :| 0 <= j < |ks| && ks[j] == KeyOf(r);
      assert KeyOf(l[j]) == KeyOf(r);
    }
  }

  lemma LatestIsNewest(rs: seq<HistoryRecord>, ks: seq<Key>, l: seq<HistoryRecord>)
    requires ks == FirstSeen(KeysOf(rs)) && forall i :: 0 <= i < |ks| ==> ks[i] in KeysOf(rs)
    requires |l| == |ks| && forall i :: 0 <= i < |ks| ==> l[i] == NewestOfKey(rs, ks[i])
    ensures forall j, r :: 0 <= j < |l| && r in rs && KeyOf(r) == KeyOf(l[j]) ==>
              r.timestamp <= l[j].timestamp
  {
  }

  /**
   * The `latest_stock ... WHERE rn = 1` rows for an area: every row comes
   * from the log and from a store of the area; no two share a
   * (store, product) key; every key of the area's history is represented;
   * and no row of the same key is newer than the one chosen.
   */
  function LatestRecords(db: Database, area: string): (l: seq<HistoryRecord>)
    ensures forall r :: r in l ==> r in db.history && InArea(db.stores, area, r.storeId)
    ensures forall i, j :: 0 <= i < j < |l| ==> KeyOf(l[i]) != KeyOf(l[j])
    ensures forall r :: r in db.history && InArea(db.stores, area, r.storeId) ==>
              exists j :: 0 <= j < |l| && KeyOf(l[j]) == KeyOf(r)
    ensures forall j, r ::
              0 <= j < |l| && r in db.history && InArea(db.stores, area, r.storeId) && KeyOf(r) == KeyOf(l[j])
              ==> r.timestamp <= l[j].timestamp
  {
    LatestOf(AreaHistory(db.history, db.stores, area))
  }
}
