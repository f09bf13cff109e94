/**
 * The store listing endpoint: every store of an area, LEFT JOINed with the
 * latest record of each of its products, grouped into one entry per store
 * in an insertion-ordered dictionary.
 */
module Listing {
  import opened Wrappers
  import opened Stock
  import opened Unique
  import opened Latest
  import Summary

  /** One result row of the LEFT JOIN; the product columns are NULL for a
      store without history. */
  datatype Row = Row(
    storeId: string,
    storeName: string,
    product: Option<string>,
    status: Option<string>,
    doi: Option<real>)

  /** The `doi` of a listed product: a number, or the text `'N/A'`. */
  datatype Doi = Days(days: real) | NotAvailable

  datatype ProductEntry = ProductEntry(name: string, status: Option<string>, doi: Doi)

  datatype StoreEntry = StoreEntry(storeId: string, storeName: string, products: seq<ProductEntry>)

  /** The joined rows of one store: its latest records, in order. */
  function MatchRows(s: Store, latest: seq<HistoryRecord>): (rows: seq<Row>)
    ensures forall r :: r in rows ==> r.storeId == s.storeId && r.storeName == s.storeName
    ensures forall r :: r in rows ==> r.product.Some? && r.doi.Some?
    ensures rows == [] <==> forall l :: l in latest ==> l.storeId != s.storeId
  {
    if latest == [] then []
    else
      var init := latest[..|latest| - 1];
      var l := latest[|latest| - 1];
      assert forall x :: x in latest <==> x in init || x == l;
      MatchRows(s, init) +
        (if l.storeId == s.storeId
         then [Row(s.storeId, s.storeName, Some(l.productName), Some(l.status), Some(l.doi))]
         else [])
  }

  /** A store's part of the LEFT JOIN: its matches, or one row of NULLs. */
  function StoreRows(s: Store, latest: seq<HistoryRecord>): (rows: seq<Row>)
    ensures |rows| >= 1
    ensures forall r :: r in rows ==> r.storeId == s.storeId && r.storeName == s.storeName
    ensures forall r :: r in rows && r.product.Some? ==> r.doi.Some?
  {
    var m := MatchRows(s, latest);
    if m == [] then [Row(s.storeId, s.storeName, None, None, None)] else m
  }

  /** `FROM stores s LEFT JOIN latest_stock ls ... WHERE s.area_code = area`,
      in stores-table order (SQL leaves the row order open). */
  function JoinRows(stores: seq<Store>, latest: seq<HistoryRecord>, area: string): (rows: seq<Row>)
    ensures forall r :: r in rows && r.product.Some? ==> r.doi.Some?
  {
    if stores == [] then []
    else
      var s := stores[|stores| - 1];
      JoinRows(stores[..|stores| - 1], latest, area) +
        (if s.areaCode == area then StoreRows(s, latest) else [])
  }

  /** The ids of the area's stores, in stores-table order. */
  function AreaStoreIds(stores: seq<Store>, area: string): (ids: seq<string>)
    ensures forall id :: id in ids <==> exists s :: s in stores && s.areaCode == area && s.storeId == id
  {
    if stores == [] then []
    else
      var init := stores[..|stores| - 1];
      var s := stores[|stores| - 1];
      assert forall x :: x in stores <==> x in init || x == s;
      AreaStoreIds(init, area) + (if s.areaCode == area then [s.storeId] else [])
  }

  /** The store id column of the rows. */
  function RowIds(rows: seq<Row>): seq<string>
  {
    seq(|rows|, i requires 0 <= i < |rows| => rows[i].storeId)
  }

  /** `if product_name:` — NULL and the empty name are skipped. */
  predicate Listed(r: Row)
  {
    r.product.Some? && r.product.value != ""
  }

  /** The product entry of a listed row; a NULL DOI becomes `'N/A'`. */
  function EntryOf(r: Row): ProductEntry
    requires r.product.Some?
  {
    ProductEntry(r.product.value, r.status, if r.doi.Some? then Days(r.doi.value) else NotAvailable)
  }

  /** The products of store `id`: its listed rows, in row order. */
  function ProductsFor(rows: seq<Row>, id: string): seq<ProductEntry>
  {
    if rows == [] then []
    else
      var r := rows[|rows| - 1];
      ProductsFor(rows[..|rows| - 1], id) + (if r.storeId == id && Listed(r) then [EntryOf(r)] else [])
  }

  /** The name on the first row of store `id`. */
  function NameFor(rows: seq<Row>, id: string): string
    requires id in RowIds(rows)
  {
    var init := rows[..|rows| - 1];
    if id in RowIds(init) then NameFor(init, id) else rows[|rows| - 1].storeName
  }

  /** The entries the grouping produces: one per store id in order of first
      appearance, each as `EntryFor` describes it. */
  function Grouping(rows: seq<Row>): seq<StoreEntry>
  {
    var ks := FirstSeen(RowIds(rows));
    FirstSeenFrom(RowIds(rows));
    seq(|ks|, i requires 0 <= i < |ks| => EntryFor(rows, ks[i]))
  }

  /** Exposes `Grouping`'s definition entry by entry: each grouped entry is a
      store id of the rows, in first-seen order, with the name of the store's
      first row and the products of all its listed rows in order. */
  lemma GroupingEntries(rows: seq<Row>)
    ensures |Grouping(rows)| == |FirstSeen(RowIds(rows))|
    ensures forall i :: 0 <= i < |Grouping(rows)| ==>
              var id := FirstSeen(RowIds(rows))[i];
              id in RowIds(rows) && Grouping(rows)[i] == StoreEntry(id, NameFor(rows, id), ProductsFor(rows, id))
  {
    FirstSeenFrom(RowIds(rows));
  }

  /** The grouping loop over the joined rows, building an insertion-ordered
      dictionary of store entries. */
  method GroupByStore(rows: seq<Row>) returns (entries: seq<StoreEntry>)
    ensures entries == Grouping(rows)
  {
    var order: seq<string> := [];
    var data: map<string, StoreEntry> := map[];
    for k := 0 to |rows|
      invariant order == FirstSeen(RowIds(rows[..k]))
      invariant data == GroupMap(rows[..k])
    {
      var r := rows[k];
      ghost var before, seen := data, order;
      if r.storeId !in data {
        data := data[r.storeId := StoreEntry(r.storeId, r.storeName, [])];
        order := order + [r.storeId];
      }
      assert data == Opened(before, r);
      ghost var mid := data;
      if Listed(r) {
        var e := data[r.storeId];
        data := data[r.storeId := e.(products := e.products + [EntryOf(r)])];
      }
      assert data == Appended(mid, r);
      PrefixSnoc(rows, k);
      GroupStep(rows[..k], r, before, seen, data, order);
    }
    assert rows[..|rows|] == rows;
    GroupedKeys(rows, order, data);
    entries := seq(|order|, i requires 0 <= i < |order| => data[order[i]]);
  }

  /** The dictionary entry after one more row: the store's entry is created
      empty on its first row, and a listed row appends its product. */
  function AddRow(data: map<string, StoreEntry>, r: Row): map<string, StoreEntry>
  {
    Appended(Opened(data, r), r)
  }

  /** `if store_id not in stores_data:` creates the store's empty entry. */
  function Opened(data: map<string, StoreEntry>, r: Row): (mid: map<string, StoreEntry>)
    ensures r.storeId in mid
  {
    if r.storeId in data then data else data[r.storeId := StoreEntry(r.storeId, r.storeName, [])]
  }

  /** `if product_name:` appends the row's product to the store's entry. */
  function Appended(mid: map<string, StoreEntry>, r: Row): map<string, StoreEntry>
    requires r.storeId in mid
  {
    if Listed(r) then mid[r.storeId := mid[r.storeId].(products := mid[r.storeId].products + [EntryOf(r)])] else mid
  }

  /** The dictionary the grouping loop holds after the rows `done`. */
  function GroupMap(done: seq<Row>): map<string, StoreEntry>
  {
    if done == [] then map[] else AddRow(GroupMap(done[..|done| - 1]), done[|done| - 1])
  }

  /** One iteration of the grouping loop follows `AddRow` and keeps the key
      order first-seen. */
  lemma GroupStep(done: seq<Row>, r: Row, before: map<string, StoreEntry>, seen: seq<string>,
                  after: map<string, StoreEntry>, order: seq<string>)
    requires before == GroupMap(done) && seen == FirstSeen(RowIds(done))
    requires after == AddRow(before, r)
    requires order == if r.storeId in before then seen else seen + [r.storeId]
    ensures after == GroupMap(done + [r]) && order == FirstSeen(RowIds(done + [r]))
  {
    assert (done + [r])[..|done|] == done;
    GroupMapKeys(done, r.storeId);
    OrderStep(done, r, before, seen, order);
  }

  /** The dictionary's keys are the store ids of the rows seen. */
  lemma {:induction false} GroupMapKeys(done: seq<Row>, id: string)
    ensures id in GroupMap(done) <==> id in RowIds(done)
  {
    if done != [] {
      var init := done[..|done| - 1];
      assert init + [done[|done| - 1]] == done;
      GroupMapKeys(init, id);
      RowIdsSnoc(init, done[|done| - 1]);
    }
  }

  /** The dictionary after any prefix of rows is grouped. */
  lemma {:induction false} GroupMapGrouped(done: seq<Row>)
    ensures Grouped(done, GroupMap(done))
  {
    if done != [] {
      var init := done[..|done| - 1];
      GroupMapGrouped(init);
      assert init + [done[|done| - 1]] == done;
      GroupedMapStep(init, done[|done| - 1], GroupMap(init));
    }
  }

  /** After the last row every key of the order is in the dictionary, and
      the entries in key order are the grouping. */
  lemma GroupedKeys(rows: seq<Row>, order: seq<string>, data: map<string, StoreEntry>)
    requires order == FirstSeen(RowIds(rows)) && data == GroupMap(rows)
    ensures forall i :: 0 <= i < |order| ==> order[i] in data
    ensures seq(|order|, i requires 0 <= i < |order| && order[i] in data => data[order[i]]) == Grouping(rows)
  {
    GroupMapGrouped(rows);
    forall i | 0 <= i < |order| ensures order[i] in RowIds(rows) && order[i] in data {
      FirstSeenMember(RowIds(rows), order[i]);
    }
  }

  /** The entry the grouping holds for store `id` after the rows `done`. */
  function EntryFor(done: seq<Row>, id: string): StoreEntry
    requires id in RowIds(done)
  {
    StoreEntry(id, NameFor(done, id), ProductsFor(done, id))
  }

  /** The grouping dictionary after the rows `done`: one key per store id
      seen, holding that store's entry. */
  ghost predicate Grouped(done: seq<Row>, data: map<string, StoreEntry>)
  {
    && (forall id :: id in data <==> id in RowIds(done))
    && (forall id :: id in data ==> id in RowIds(done) && data[id] == EntryFor(done, id))
  }

  /** One iteration of the grouping loop adds the row's store id to the key
      order exactly when the dictionary did not hold it yet. */
  lemma OrderStep(done: seq<Row>, r: Row, before: map<string, StoreEntry>, seen: seq<string>, order: seq<string>)
    requires (r.storeId in before <==> r.storeId in RowIds(done)) && seen == FirstSeen(RowIds(done))
    requires order == if r.storeId in before then seen else seen + [r.storeId]
    ensures order == FirstSeen(RowIds(done + [r]))
  {
    RowIdsSnoc(done, r);
    FirstSeenMember(RowIds(done), r.storeId);
    FirstSeenSnoc(RowIds(done), r.storeId, seen, order);
  }

  /** Adding one row keeps the dictionary grouped. */
  lemma GroupedMapStep(done: seq<Row>, r: Row, before: map<string, StoreEntry>)
    requires Grouped(done, before)
    ensures Grouped(done + [r], AddRow(before, r))
  {
    var next := done + [r];
    var after := AddRow(before, r);
    assert next[..|done|] == done;
    RowIdsSnoc(done, r);
    forall id | id in after ensures id in RowIds(next) && after[id] == EntryFor(next, id) {
      if id != r.storeId {
        assert after[id] == before[id];
      } else if id !in before {
        AbsentIdNoProducts(done, id);
      }
    }
  }

  /** The response of `GET /api/stores?area=...`. */
  datatype StoresResponse = MissingAreaError | QueryError | StoreList(entries: seq<StoreEntry>)

  function StoreIds(entries: seq<StoreEntry>): seq<string>
  {
    seq(|entries|, i requires 0 <= i < |entries| => entries[i].storeId)
  }

  /**
   * The listing endpoint. `db` is `None` when connecting or querying raises.
   * The listing holds each store id of the area exactly once, in
   * stores-table order and nothing else; a store with no latest record has
   * no products; and no listed product shows `'N/A'`.
   */
  method GetStoresByArea(area: Option<string>, db: Option<Database>) returns (resp: StoresResponse)
    ensures resp.MissingAreaError? <==> Summary.AreaMissing(area)
    ensures resp.QueryError? <==> !Summary.AreaMissing(area) && db.None?
    ensures resp.StoreList? ==>
              StoreIds(resp.entries) == FirstSeen(AreaStoreIds(db.value.stores, area.value))
    ensures resp.StoreList? ==>
              forall e :: e in resp.entries && (forall l :: l in LatestRecords(db.value, area.value) ==> l.storeId != e.storeId)
                ==> e.products == []
    ensures resp.StoreList? ==> forall e, p :: e in resp.entries && p in e.products ==> p.doi.Days?
    ensures resp.StoreList? && UniqueStoreIds(db.value.stores) ==>
              && StoreIds(resp.entries) == AreaStoreIds(db.value.stores, area.value)
              && forall s :: s in db.value.stores && s.areaCode == area.value ==>
                   StoreEntry(s.storeId, s.storeName, LatestProducts(LatestRecords(db.value, area.value), s.storeId))
                     in resp.entries
  {
    if Summary.AreaMissing(area) {
      return MissingAreaError;
    }
    if db.None? {
      return QueryError;
    }
    var latest := LatestRecords(db.value, area.value);
    var rows := JoinRows(db.value.stores, latest, area.value);
    var entries := GroupByStore(rows);
    GroupingEntries(rows);
    JoinRowIds(db.value.stores, latest, area.value);
    forall e | e in entries && (forall l :: l in latest ==> l.storeId != e.storeId)
      ensures e.products == []
    {
      JoinNoHistoryNoProducts(db.value.stores, latest, area.value, e.storeId);
    }
    forall e, p | e in entries && p in e.products ensures p.doi.Days? {
      ProductsHaveDoi(rows, e.storeId);
    }
    if UniqueStoreIds(db.value.stores) {
      AreaStoreIdsDistinct(db.value.stores, area.value);
      FirstSeenOfDistinct(AreaStoreIds(db.value.stores, area.value));
      forall s | s in db.value.stores && s.areaCode == area.value
        ensures StoreEntry(s.storeId, s.storeName, LatestProducts(latest, s.storeId)) in entries
      {
        ListedEntry(db.value.stores, latest, area.value, rows, entries, s);
      }
    }
    resp := StoreList(entries);
  }

  /** The entry the grouping gives a store of the area, under unique ids. */
  lemma ListedEntry(stores: seq<Store>, latest: seq<HistoryRecord>, area: string,
                    rows: seq<Row>, entries: seq<StoreEntry>, s: Store)
    requires UniqueStoreIds(stores) && s in stores && s.areaCode == area
    requires rows == JoinRows(stores, latest, area)
    requires |entries| == |FirstSeen(RowIds(rows))|
    requires forall i :: 0 <= i < |entries| ==>
               var id := FirstSeen(RowIds(rows))[i];
               id in RowIds(rows) && entries[i] == StoreEntry(id, NameFor(rows, id), ProductsFor(rows, id))
    ensures StoreEntry(s.storeId, s.storeName, LatestProducts(latest, s.storeId)) in entries
  {
    JoinName(stores, latest, area, s);
    JoinProducts(stores, latest, area, s.storeId);
    FirstSeenMember(RowIds(rows), s.storeId);
    var i :| 0 <= i < |FirstSeen(RowIds(rows))| && FirstSeen(RowIds(rows))[i] == s.storeId;
    assert entries[i] == StoreEntry(s.storeId, s.storeName, LatestProducts(latest, s.storeId));
  }

  lemma RowIdsAppend(a: seq<Row>, b: seq<Row>)
    ensures RowIds(a + b) == RowIds(a) + RowIds(b)
  {
    assert forall i :: 0 <= i < |a + b| ==> RowIds(a + b)[i] == (RowIds(a) + RowIds(b))[i];
  }

  lemma RowIdsSnoc(done: seq<Row>, r: Row)
    ensures RowIds(done + [r]) == RowIds(done) + [r.storeId]
  {
    RowIdsAppend(done, [r]);
    assert RowIds([r]) == [r.storeId];
  }

  lemma {:induction false} ProductsForAppend(a: seq<Row>, b: seq<Row>, id: string)
    ensures ProductsFor(a + b, id) == ProductsFor(a, id) + ProductsFor(b, id)
  {
    if b != [] {
      var b' := b[..|b| - 1];
      assert (a + b)[..|a + b| - 1] == a + b';
      ProductsForAppend(a, b', id);
    } else {
      assert a + b == a;
    }
  }

  /** The LEFT JOIN yields each store of the area, in order, with at least
      one row: the first-seen store ids of its rows are the area's. */
  lemma {:induction false} JoinRowIds(stores: seq<Store>, latest: seq<HistoryRecord>, area: string)
    ensures FirstSeen(RowIds(JoinRows(stores, latest, area))) == FirstSeen(AreaStoreIds(stores, area))
  {
    if stores != [] {
      var init := stores[..|stores| - 1];
      var s := stores[|stores| - 1];
      JoinRowIds(init, latest, area);
      var before := JoinRows(init, latest, area);
      if s.areaCode == area {
        assert JoinRows(stores, latest, area) == before + StoreRows(s, latest);
        assert AreaStoreIds(stores, area) == AreaStoreIds(init, area) + [s.storeId];
        StoreRowsIds(before, AreaStoreIds(init, area), StoreRows(s, latest), s.storeId);
      } else {
        assert JoinRows(stores, latest, area) == before + [] == before;
        assert AreaStoreIds(stores, area) == AreaStoreIds(init, area) + [] == AreaStoreIds(init, area);
      }
    }
  }

  /** Appending one store's joined rows adds its id once to the first-seen order. */
  lemma StoreRowsIds(before: seq<Row>, ids: seq<string>, own: seq<Row>, id: string)
    requires FirstSeen(RowIds(before)) == FirstSeen(ids)
    requires |own| >= 1 && forall r :: r in own ==> r.storeId == id
    ensures FirstSeen(RowIds(before + own)) == FirstSeen(ids + [id])
  {
    var run := RowIds(own);
    RowIdsAppend(before, own);
    forall i | 0 <= i < |run| ensures run[i] == id {
      assert own[i] in own;
    }
    FirstSeenRun(RowIds(before), run, id);
    FirstSeenAppend(RowIds(before), ids, id);
  }

  lemma AbsentIdNoProducts(rows: seq<Row>, id: string)
    requires id !in RowIds(rows)
    ensures ProductsFor(rows, id) == []
  {
    forall r | r in rows ensures r.storeId != id {
      var i :| 0 <= i < |rows| && rows[i] == r;
      assert RowIds(rows)[i] == r.storeId;
    }
    NoRowOfId(rows, id);
  }

  /** A store id with no latest record gets no product from the join. */
  lemma {:induction false} JoinNoHistoryNoProducts(stores: seq<Store>, latest: seq<HistoryRecord>, area: string, id: string)
    requires forall l :: l in latest ==> l.storeId != id
    ensures ProductsFor(JoinRows(stores, latest, area), id) == []
  {
    if stores != [] {
      var init := stores[..|stores| - 1];
      var s := stores[|stores| - 1];
      JoinNoHistoryNoProducts(init, latest, area, id);
      var own := if s.areaCode == area then StoreRows(s, latest) else [];
      ProductsForAppend(JoinRows(init, latest, area), own, id);
      NoProductsInOwnRows(s, latest, own, id);
    }
  }

  lemma NoProductsInOwnRows(s: Store, latest: seq<HistoryRecord>, own: seq<Row>, id: string)
    requires forall l :: l in latest ==> l.storeId != id
    requires own == [] || own == StoreRows(s, latest)
    ensures ProductsFor(own, id) == []
  {
    if own != [] {
      if s.storeId == id {
        assert own == [Row(s.storeId, s.storeName, None, None, None)];
        assert own[..0] == [];
      } else {
        NoRowOfId(own, id);
      }
    }
  }

  lemma {:induction false} NoRowOfId(rows: seq<Row>, id: string)
    requires forall r :: r in rows ==> r.storeId != id
    ensures ProductsFor(rows, id) == []
  {
    if rows != [] {
      var init := rows[..|rows| - 1];
      assert forall r :: r in init ==> r in rows;
      NoRowOfId(init, id);
    }
  }

  /** Rows whose product is present also carry a DOI, so no listed product
      falls back to `'N/A'`. */
  lemma {:induction false} ProductsHaveDoi(rows: seq<Row>, id: string)
    requires forall r :: r in rows && r.product.Some? ==> r.doi.Some?
    ensures forall p :: p in ProductsFor(rows, id) ==> p.doi.Days?
  {
    if rows != [] {
      var init := rows[..|rows| - 1];
      assert forall r :: r in init ==> r in rows;
      ProductsHaveDoi(init, id);
    }
  }

  /** The stores table has `store_id` as its key. */
  predicate UniqueStoreIds(stores: seq<Store>)
  {
    forall i, j :: 0 <= i < j < |stores| ==> stores[i].storeId != stores[j].storeId
  }

  /** The products a store's latest records give it, in order: those with a
      non-empty name, each with its status and DOI. */
  function LatestProducts(latest: seq<HistoryRecord>, id: string): seq<ProductEntry>
  {
    if latest == [] then []
    else
      var l := latest[|latest| - 1];
      LatestProducts(latest[..|latest| - 1], id) +
        (if l.storeId == id && l.productName != "" then [ProductEntry(l.productName, Some(l.status), Days(l.doi))] else [])
  }

  /** A store's latest products are exactly its latest records with a
      non-empty product name. */
  lemma {:induction false} LatestProductsMember(latest: seq<HistoryRecord>, id: string, p: ProductEntry)
    ensures p in LatestProducts(latest, id) <==>
              exists l :: l in latest && l.storeId == id && l.productName != "" &&
                p == ProductEntry(l.productName, Some(l.status), Days(l.doi))
  {
    if latest != [] {
      var init := latest[..|latest| - 1];
      LatestProductsMember(init, id, p);
      assert latest == init + [latest[|latest| - 1]];
    }
  }

  lemma {:induction false} NoLatestProducts(latest: seq<HistoryRecord>, id: string)
    requires forall l :: l in latest ==> l.storeId != id
    ensures LatestProducts(latest, id) == []
  {
    if latest != [] {
      var init := latest[..|latest| - 1];
      assert forall l :: l in init ==> l in latest;
      NoLatestProducts(init, id);
    }
  }

  /** The matched rows of a store list exactly its latest products. */
  lemma {:induction false} MatchRowsProducts(s: Store, latest: seq<HistoryRecord>)
    ensures ProductsFor(MatchRows(s, latest), s.storeId) == LatestProducts(latest, s.storeId)
  {
    if latest != [] {
      var init := latest[..|latest| - 1];
      var l := latest[|latest| - 1];
      MatchRowsProducts(s, init);
      var own := if l.storeId == s.storeId
                 then [Row(s.storeId, s.storeName, Some(l.productName), Some(l.status), Some(l.doi))]
                 else [];
      assert MatchRows(s, latest) == MatchRows(s, init) + own;
      ProductsForAppend(MatchRows(s, init), own, s.storeId);
      if own != [] {
        assert own[..0] == [];
      }
    }
  }

  lemma StoreRowsProducts(s: Store, latest: seq<HistoryRecord>)
    ensures ProductsFor(StoreRows(s, latest), s.storeId) == LatestProducts(latest, s.storeId)
  {
    if MatchRows(s, latest) == [] {
      NoLatestProducts(latest, s.storeId);
      assert StoreRows(s, latest)[..0] == [];
    } else {
      MatchRowsProducts(s, latest);
    }
  }

  /** Every joined row belongs to a store of the area. */
  lemma {:induction false} JoinRowsFromStores(stores: seq<Store>, latest: seq<HistoryRecord>, area: string, r: Row)
    requires r in JoinRows(stores, latest, area)
    ensures exists s :: s in stores && s.areaCode == area && s.storeId == r.storeId && s.storeName == r.storeName
  {
    var init := stores[..|stores| - 1];
    var s := stores[|stores| - 1];
    var own := if s.areaCode == area then StoreRows(s, latest) else [];
    assert JoinRows(stores, latest, area) == JoinRows(init, latest, area) + own;
    if r in JoinRows(init, latest, area) {
      JoinRowsFromStores(init, latest, area, r);
      var t :| t in init && t.areaCode == area && t.storeId == r.storeId && t.storeName == r.storeName;
      assert t in stores;
    } else {
      assert r in own;
    }
  }

  /** With unique store ids, the products the join gives a store of the area
      are exactly its latest products. */
  lemma {:induction false} JoinProducts(stores: seq<Store>, latest: seq<HistoryRecord>, area: string, id: string)
    requires UniqueStoreIds(stores)
    requires exists s :: s in stores && s.areaCode == area && s.storeId == id
    ensures ProductsFor(JoinRows(stores, latest, area), id) == LatestProducts(latest, id)
  {
    var init := stores[..|stores| - 1];
    var s := stores[|stores| - 1];
    var before := JoinRows(init, latest, area);
    var own := if s.areaCode == area then StoreRows(s, latest) else [];
    assert JoinRows(stores, latest, area) == before + own;
    ProductsForAppend(before, own, id);
    if s.storeId == id {
      forall r | r in before ensures r.storeId != id {
        JoinRowsFromStores(init, latest, area, r);
      }
      NoRowOfId(before, id);
      StoreRowsProducts(s, latest);
    } else {
      var t :| t in stores && t.areaCode == area && t.storeId == id;
      assert t in init by {
        var i :| 0 <= i < |stores| && stores[i] == t;
        assert i != |stores| - 1;
      }
      JoinProducts(init, latest, area, id);
      NoRowOfId(own, id);
    }
  }

  /** With unique store ids, the first joined row of a store carries its name. */
  lemma {:induction false} JoinName(stores: seq<Store>, latest: seq<HistoryRecord>, area: string, s: Store)
    requires UniqueStoreIds(stores)
    requires s in stores && s.areaCode == area
    ensures s.storeId in RowIds(JoinRows(stores, latest, area))
    ensures NameFor(JoinRows(stores, latest, area), s.storeId) == s.storeName
  {
    var init := stores[..|stores| - 1];
    var last := stores[|stores| - 1];
    var before := JoinRows(init, latest, area);
    var own := if last.areaCode == area then StoreRows(last, latest) else [];
    assert JoinRows(stores, latest, area) == before + own;
    if last == s {
      EarlierStoresOtherIds(stores);
      JoinRowsOtherId(init, latest, area, s.storeId);
      NewStoreName(before, s, latest);
    } else {
      assert s in init by {
        var i :| 0 <= i < |stores| && stores[i] == s;
        assert i < |stores| - 1;
        assert init[i] == s;
      }
      JoinName(init, latest, area, s);
      RowIdsAppend(before, own);
      NameForAppend(before, own, s.storeId);
    }
  }

  /** With unique ids, no store before the last one shares its id. */
  lemma EarlierStoresOtherIds(stores: seq<Store>)
    requires UniqueStoreIds(stores) && stores != []
    ensures forall t :: t in stores[..|stores| - 1] ==> t.storeId != stores[|stores| - 1].storeId
  {
    forall t | t in stores[..|stores| - 1] ensures t.storeId != stores[|stores| - 1].storeId {
      var j :| 0 <= j < |stores| - 1 && stores[..|stores| - 1][j] == t;
      assert stores[j] == t;
    }
  }

  /** A store id that no store of the table has never shows up in the join. */
  lemma JoinRowsOtherId(stores: seq<Store>, latest: seq<HistoryRecord>, area: string, id: string)
    requires forall t :: t in stores ==> t.storeId != id
    ensures id !in RowIds(JoinRows(stores, latest, area))
  {
    var rows := JoinRows(stores, latest, area);
    forall i | 0 <= i < |rows| ensures RowIds(rows)[i] != id {
      assert rows[i] in rows;
      JoinRowsFromStores(stores, latest, area, rows[i]);
    }
  }

  /** A store whose id is new to the rows so far is named by its own rows. */
  lemma NewStoreName(before: seq<Row>, s: Store, latest: seq<HistoryRecord>)
    requires s.storeId !in RowIds(before)
    ensures s.storeId in RowIds(before + StoreRows(s, latest))
    ensures NameFor(before + StoreRows(s, latest), s.storeId) == s.storeName
  {
    var own := StoreRows(s, latest);
    RowIdsAppend(before, own);
    assert own[0] in own;
    assert RowIds(own)[0] == s.storeId;
    NameForAppend(before, own, s.storeId);
    NameOfStoreRows(s, latest);
  }

  lemma NameOfStoreRows(s: Store, latest: seq<HistoryRecord>)
    requires s.storeId in RowIds(StoreRows(s, latest))
    ensures NameFor(StoreRows(s, latest), s.storeId) == s.storeName
  {
    var own := StoreRows(s, latest);
    NameForAllRows(own, s.storeId, s.storeName);
  }

  lemma {:induction false} NameForAllRows(rows: seq<Row>, id: string, name: string)
    requires id in RowIds(rows)
    requires forall r :: r in rows ==> r.storeName == name
    ensures NameFor(rows, id) == name
  {
    var init := rows[..|rows| - 1];
    assert rows[|rows| - 1] in rows;
    if id in RowIds(init) {
      assert forall r :: r in init ==> r in rows;
      NameForAllRows(init, id, name);
    }
  }

  lemma {:induction false} NameForAppend(a: seq<Row>, b: seq<Row>, id: string)
    requires id in RowIds(a + b)
    ensures RowIds(a + b) == RowIds(a) + RowIds(b)
    ensures NameFor(a + b, id) == if id in RowIds(a) then NameFor(a, id) else NameFor(b, id)
  {
    RowIdsAppend(a, b);
    if b == [] {
      assert a + b == a;
    } else {
      var b' := b[..|b| - 1];
      var last := b[|b| - 1];
      var ab := a + b;
      assert ab[..|ab| - 1] == a + b';
      assert ab[|ab| - 1] == last;
      RowIdsAppend(a, b');
      assert NameFor(ab, id) == if id in RowIds(a + b') then NameFor(a + b', id) else last.storeName;
      if id in RowIds(a) {
        assert id in RowIds(a + b');
        NameForAppend(a, b', id);
      } else if id in RowIds(b') {
        assert id in RowIds(a + b');
        NameForAppend(a, b', id);
        assert NameFor(b, id) == NameFor(b', id);
      } else {
        assert id !in RowIds(a + b');
        assert id in RowIds(b);
        assert NameFor(b, id) == last.storeName;
      }
    }
  }

  lemma {:induction false} AreaStoreIdsDistinct(stores: seq<Store>, area: string)
    requires UniqueStoreIds(stores)
    ensures Distinct(AreaStoreIds(stores, area))
  {
    if stores != [] {
      var init := stores[..|stores| - 1];
      var s := stores[|stores| - 1];
      assert UniqueStoreIds(init);
      AreaStoreIdsDistinct(init, area);
      forall t | t in init ensures t.storeId != s.storeId {
        var j :| 0 <= j < |init| && init[j] == t;
        assert stores[j] == t;
      }
      assert s.storeId !in AreaStoreIds(init, area);
    }
  }
}
