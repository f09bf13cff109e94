/**
 * The stock simulator: one simulated observation per (area, store) of the
 * fixed area table, collected into the batch the ETL step later loads.
 * Random draws and the clock are parameters (a `Draw`); a fetch that raises
 * is a `None` from the `fetch` parameter.
 */
module Scraper {
  import opened Wrappers
  import opened Stock

  const ProductName: string := "Mango Oatmeal"

  /** The area codes and their store ids, in the order the dictionary lists them. */
  const Areas: seq<(string, seq<string>)> := [
    ("400001", ["BLK_MUM_101", "BLK_MUM_102"]),
    ("201301", ["BLK_NOI_201", "BLK_NOI_202", "BLK_NOI_203"])
  ]

  const Full: string := "full"
  const Low: string := "low"
  const Oos: string := "OOS"

  /** The keys of the status options, in their dictionary order. */
  const StatusKeys: seq<string> := [Full, Low, Oos]

  const Price: real := 199.0

  /** Which of the three statuses the weighted choice picked. */
  type StatusPick = i: int | 0 <= i < 3
  /** `random.randint(30, 100)` */
  type FullCount = n: int | 30 <= n <= 100 witness 30
  /** `random.randint(1, 15)` */
  type LowCount = n: int | 1 <= n <= 15 witness 1

  /** Everything one call of the simulator draws from randomness and the clock. */
  datatype Draw = Draw(pick: StatusPick, fullCount: FullCount, lowCount: LowCount, now: int)

  /** The options table: a stock count and a price per status. */
  function StockOptions(d: Draw): (options: map<string, (int, real)>)
    ensures forall k :: k in options <==> k in StatusKeys
  {
    map[Full := (d.fullCount as int, Price), Low := (d.lowCount as int, Price), Oos := (0, Price)]
  }

  /** One simulated observation for a store of an area. */
  function SimulateFetch(area: string, storeId: string, d: Draw): (o: Observation)
    ensures o.timestamp == d.now && o.area == area && o.storeId == storeId
    ensures o.product == ProductName && o.price == Price
    ensures o.status in StatusKeys
    ensures o.status == Full ==> 30 <= o.count <= 100
    ensures o.status == Low ==> 1 <= o.count <= 15
    ensures o.status == Oos ==> o.count == 0
    ensures o.status == StatusKeys[d.pick]
    ensures StatusKeys[d.pick] in StockOptions(d) && (o.count, o.price) == StockOptions(d)[StatusKeys[d.pick]]
  {
    ChosenOptionIsLookup(d);
    var data := ChosenOption(d);
    Observation(d.now, area, storeId, ProductName, StatusKeys[d.pick], data.0, data.1)
  }

  /** The entry of the options table the choice selects: `stock_options[status_choice]`. */
  function ChosenOption(d: Draw): (data: (int, real))
    ensures data.1 == Price
  {
    match d.pick
    case 0 => (d.fullCount as int, Price)
    case 1 => (d.lowCount as int, Price)
    case _ => (0, Price)
  }

  /** Selecting by position agrees with looking the chosen key up in the
      options table. */
  lemma ChosenOptionIsLookup(d: Draw)
    ensures StatusKeys[d.pick] in StockOptions(d)
    ensures ChosenOption(d) == StockOptions(d)[StatusKeys[d.pick]]
  {
    assert Full != Low && Full != Oos && Low != Oos by {
      assert Full[0] != Low[0] && Full[0] != Oos[0] && Low[0] != Oos[0];
    }
  }

  /** The transform flags a simulated observation exactly when the simulator
      did not report it as full: every "low" and "OOS" observation alerts and
      no "full" one does. */
  lemma SimulatedAlert(area: string, storeId: string, d: Draw)
    ensures Transform(SimulateFetch(area, storeId, d)).alert <==> SimulateFetch(area, storeId, d).status != Full
  {
    var o := SimulateFetch(area, storeId, d);
    assert o.status == Full || o.status == Low || o.status == Oos;
  }

  /** The (area, store) pairs of one area, in store order. */
  function StorePairs(area: string, stores: seq<string>): (ps: seq<(string, string)>)
    ensures |ps| == |stores|
    ensures forall i :: 0 <= i < |ps| ==> ps[i] == (area, stores[i])
  {
    seq(|stores|, i requires 0 <= i < |stores| => (area, stores[i]))
  }

  /** The order the nested loops visit the stores in. */
  function Pairs(areas: seq<(string, seq<string>)>): seq<(string, string)>
  {
    if areas == [] then []
    else
      var last := areas[|areas| - 1];
      Pairs(areas[..|areas| - 1]) + StorePairs(last.0, last.1)
  }

  /** A pair is visited exactly when its store is listed under its area. */
  lemma {:induction false} PairsMember(areas: seq<(string, seq<string>)>, area: string, storeId: string)
    ensures (area, storeId) in Pairs(areas) <==>
              exists k :: 0 <= k < |areas| && areas[k].0 == area && storeId in areas[k].1
  {
    if areas != [] {
      var init := areas[..|areas| - 1];
      var last := areas[|areas| - 1];
      PairsMember(init, area, storeId);
      var ps := StorePairs(last.0, last.1);
      assert (area, storeId) in ps <==> last.0 == area && storeId in last.1 by {
        if (area, storeId) in ps {
          var i :| 0 <= i < |ps| && ps[i] == (area, storeId);
          assert last.1[i] == storeId;
        }
        if last.0 == area && storeId in last.1 {
          var i :| 0 <= i < |last.1| && last.1[i] == storeId;
          assert ps[i] == (area, storeId);
        }
      }
      if exists k :: 0 <= k < |areas| && areas[k].0 == area && storeId in areas[k].1 {
        var k :| 0 <= k < |areas| && areas[k].0 == area && storeId in areas[k].1;
        if k < |init| {
          assert init[k] == areas[k];
        }
      }
      if exists k :: 0 <= k < |init| && init[k].0 == area && storeId in init[k].1 {
        var k :| 0 <= k < |init| && init[k].0 == area && storeId in init[k].1;
        assert areas[k] == init[k];
      }
    }
  }

  /** The visits of one more area follow those of the areas before it. */
  lemma PairsStep(areas: seq<(string, seq<string>)>, a: nat)
    requires a < |areas|
    ensures Pairs(areas[..a + 1]) ==
              Pairs(areas[..a]) + StorePairs(areas[a].0, areas[a].1[..|areas[a].1|])
  {
    assert areas[..a + 1][..a] == areas[..a];
    assert areas[a].1[..|areas[a].1|] == areas[a].1;
  }

  /** The fixed table yields five stores to visit. */
  lemma FivePairs()
    ensures |Pairs(Areas)| == 5
  {
    assert Areas[..1] == [Areas[0]];
    assert Areas[..0] == [];
  }

  /** What one visit contributes: the simulated record, or nothing when the
      fetch raised. */
  function Visit(p: (string, string), fetch: (string, string) -> Option<Draw>): (rs: seq<Observation>)
    ensures |rs| <= 1
  {
    match fetch(p.0, p.1)
    case None => []
    case Some(d) => [SimulateFetch(p.0, p.1, d)]
  }

  /** The records collected over a sequence of visits. */
  function Collected(pairs: seq<(string, string)>, fetch: (string, string) -> Option<Draw>): (rs: seq<Observation>)
    ensures |rs| <= |pairs|
  {
    if pairs == [] then []
    else Collected(pairs[..|pairs| - 1], fetch) + Visit(pairs[|pairs| - 1], fetch)
  }

  lemma CollectedSnoc(pairs: seq<(string, string)>, p: (string, string), fetch: (string, string) -> Option<Draw>)
    ensures Collected(pairs + [p], fetch) == Collected(pairs, fetch) + Visit(p, fetch)
  {
    assert (pairs + [p])[..|pairs|] == pairs;
  }

  /** Every collected record is the simulation of a visited store whose
      fetch succeeded. */
  lemma {:induction false} CollectedFrom(pairs: seq<(string, string)>, fetch: (string, string) -> Option<Draw>, o: Observation)
    requires o in Collected(pairs, fetch)
    ensures (o.area, o.storeId) in pairs
    ensures fetch(o.area, o.storeId).Some? && o == SimulateFetch(o.area, o.storeId, fetch(o.area, o.storeId).value)
  {
    var init := pairs[..|pairs| - 1];
    if o in Collected(init, fetch) {
      CollectedFrom(init, fetch, o);
      assert forall p :: p in init ==> p in pairs;
    } else {
      assert pairs[|pairs| - 1] in pairs;
    }
  }

  /** A store whose fetch succeeds is recorded, whatever the other fetches
      do: a failure elsewhere does not abort the batch. */
  lemma {:induction false} CollectedMember(pairs: seq<(string, string)>, fetch: (string, string) -> Option<Draw>, p: (string, string))
    requires p in pairs && fetch(p.0, p.1).Some?
    ensures SimulateFetch(p.0, p.1, fetch(p.0, p.1).value) in Collected(pairs, fetch)
  {
    var init := pairs[..|pairs| - 1];
    var last := pairs[|pairs| - 1];
    if p == last {
      assert Visit(last, fetch) == [SimulateFetch(p.0, p.1, fetch(p.0, p.1).value)];
    } else {
      assert p in init by {
        var i :| 0 <= i < |pairs| && pairs[i] == p;
        assert init[i] == p;
      }
      CollectedMember(init, fetch, p);
    }
  }

  /** The positions of the visits whose fetch succeeded. */
  function Fetched(pairs: seq<(string, string)>, fetch: (string, string) -> Option<Draw>): set<int>
  {
    set i | 0 <= i < |pairs| && Succeeds(pairs[i], fetch)
  }

  /** The fetch for a visit returned a draw instead of raising. */
  predicate Succeeds(p: (string, string), fetch: (string, string) -> Option<Draw>)
  {
    fetch(p.0, p.1).Some?
  }

  /** A run collects exactly one record per successful fetch. */
  lemma {:induction false} CollectedCount(pairs: seq<(string, string)>, fetch: (string, string) -> Option<Draw>)
    ensures |Collected(pairs, fetch)| == |Fetched(pairs, fetch)|
  {
    if pairs != [] {
      var init := pairs[..|pairs| - 1];
      var p := pairs[|pairs| - 1];
      CollectedCount(init, fetch);
      FetchedSnoc(pairs, fetch);
      assert |Visit(p, fetch)| == if Succeeds(p, fetch) then 1 else 0;
    }
  }

  lemma FetchedSnoc(pairs: seq<(string, string)>, fetch: (string, string) -> Option<Draw>)
    requires pairs != []
    ensures |Fetched(pairs, fetch)| ==
              |Fetched(pairs[..|pairs| - 1], fetch)| + if Succeeds(pairs[|pairs| - 1], fetch) then 1 else 0
  {
    var init := pairs[..|pairs| - 1];
    var last := |pairs| - 1;
    assert forall i :: 0 <= i < last ==> init[i] == pairs[i];
    assert Fetched(init, fetch) == set i | 0 <= i < last && Succeeds(pairs[i], fetch);
    if Succeeds(pairs[last], fetch) {
      assert Fetched(pairs, fetch) == Fetched(init, fetch) + {last};
    } else {
      assert Fetched(pairs, fetch) == Fetched(init, fetch);
    }
  }

  /** When no fetch fails, every store is recorded once, in visiting order. */
  lemma {:induction false} CollectedAll(pairs: seq<(string, string)>, fetch: (string, string) -> Option<Draw>)
    requires forall i :: 0 <= i < |pairs| ==> fetch(pairs[i].0, pairs[i].1).Some?
    ensures |Collected(pairs, fetch)| == |pairs|
    ensures forall i :: 0 <= i < |pairs| ==>
              Collected(pairs, fetch)[i] == SimulateFetch(pairs[i].0, pairs[i].1, fetch(pairs[i].0, pairs[i].1).value)
  {
    if pairs != [] {
      var init := pairs[..|pairs| - 1];
      var p := pairs[|pairs| - 1];
      CollectedAll(init, fetch);
      var prefix := Collected(init, fetch);
      var visit := Visit(p, fetch);
      assert visit == [SimulateFetch(p.0, p.1, fetch(p.0, p.1).value)];
      var rs := Collected(pairs, fetch);
      assert rs == prefix + visit;
      forall i | 0 <= i < |pairs|
        ensures rs[i] == SimulateFetch(pairs[i].0, pairs[i].1, fetch(pairs[i].0, pairs[i].1).value)
      {
        if i < |init| {
          assert init[i] == pairs[i];
          assert rs[i] == prefix[i];
        } else {
          assert rs[i] == visit[0];
        }
      }
    }
  }

  lemma VisitStep(done: seq<(string, string)>, area: string, stores: seq<string>, j: nat,
                  fetch: (string, string) -> Option<Draw>)
    requires j < |stores|
    ensures Collected(done + StorePairs(area, stores[..j + 1]), fetch) ==
              Collected(done + StorePairs(area, stores[..j]), fetch) + Visit((area, stores[j]), fetch)
  {
    assert StorePairs(area, stores[..j + 1]) == StorePairs(area, stores[..j]) + [(area, stores[j])];
    assert done + StorePairs(area, stores[..j + 1]) == (done + StorePairs(area, stores[..j])) + [(area, stores[j])];
    CollectedSnoc(done + StorePairs(area, stores[..j]), (area, stores[j]), fetch);
  }

  /** A collected batch, once transformed, alerts exactly on the rows that
      are not "full". */
  lemma CollectedAlerts(pairs: seq<(string, string)>, fetch: (string, string) -> Option<Draw>)
    ensures forall r :: r in TransformBatch(Collected(pairs, fetch)) ==> (r.alert <==> r.status != Full)
  {
    var batch := Collected(pairs, fetch);
    forall r | r in TransformBatch(batch) ensures r.alert <==> r.status != Full {
      var i :| 0 <= i < |batch| && TransformBatch(batch)[i] == r;
      assert batch[i] in batch;
      CollectedFrom(pairs, fetch, batch[i]);
      SimulatedAlert(batch[i].area, batch[i].storeId, fetch(batch[i].area, batch[i].storeId).value);
    }
  }

  /**
   * One scraper run: visit every store of every area in order, keep the
   * record of each successful fetch and skip the failed ones. The result is
   * the batch written to the output file.
   */
  method RunScraper(fetch: (string, string) -> Option<Draw>) returns (records: seq<Observation>)
    ensures records == Collected(Pairs(Areas), fetch)
    ensures |records| <= 5
    ensures |records| == |Fetched(Pairs(Areas), fetch)|
    ensures forall p :: p in Pairs(Areas) && fetch(p.0, p.1).Some? ==>
              SimulateFetch(p.0, p.1, fetch(p.0, p.1).value) in records
  {
    records := [];
    for a := 0 to |Areas|
      invariant records == Collected(Pairs(Areas[..a]), fetch)
    {
      var area := Areas[a].0;
      var stores := Areas[a].1;
      ghost var done := Pairs(Areas[..a]);
      assert done + StorePairs(area, stores[..0]) == done;
      for j := 0 to |stores|
        invariant records == Collected(done + StorePairs(area, stores[..j]), fetch)
      {
        var storeId := stores[j];
        var fetched := fetch(area, storeId);
        if fetched.Some? {
          var record := SimulateFetch(area, storeId, fetched.value);
          records := records + [record];
        }
        VisitStep(done, area, stores, j, fetch);
      }
      PairsStep(Areas, a);
    }
    assert Areas[..|Areas|] == Areas;
    FivePairs();
    CollectedCount(Pairs(Areas), fetch);
    forall p | p in Pairs(Areas) && fetch(p.0, p.1).Some?
      ensures SimulateFetch(p.0, p.1, fetch(p.0, p.1).value) in records
    {
      CollectedMember(Pairs(Areas), fetch, p);
    }
  }
}
