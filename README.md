# Stock-availability pipeline, modelled in Dafny

This project models the core of a small stock-availability service. It has
two parts.

- A simulator (`scraper.py`) produces one observation of the product
  "Mango Oatmeal" per store of two fixed areas. Each observation carries a
  status ("full", "low" or "OOS"), a count and a price.
- A Flask service (`app.py`) has three parts:
  - an ETL step that turns a batch of observations into rows of an
    append-only `stock_history` log, adding the days of inventory
    (DOI = count / 10) and an out-of-stock alert flag
    (count = 0 or DOI < 3);
  - an area summary that counts, over the newest record of every
    (store, product) of an area, the out-of-stock records and the other
    alerting records, and renders the second count as
    "Low in n store(s)" or "None";
  - a store listing that LEFT JOINs the area's stores with those newest
    records and groups the rows into one entry per store.

Modules, one file each:

| file | module | models |
|---|---|---|
| `wrappers.dfy` | `Wrappers` | `Option` |
| `stock.dfy` | `Stock` | observations, history rows, the DOI/alert transform (pure) |
| `loader.dfy` | `Loader` | the `stock_history` table as a class, and the ETL load loop (imperative) |
| `unique.dfy` | `Unique` | de-duplication in first-appearance order (the key order of a Python dict) |
| `latest.dfy` | `Latest` | the `ROW_NUMBER() ... = 1` newest-per-(store, product) selection (pure) |
| `summary.dfy` | `Summary` | `GET /api/stock` (pure) |
| `listing.dfy` | `Listing` | `GET /api/stores`: the LEFT JOIN (pure), then the grouping loop (imperative) |
| `scraper.dfy` | `Scraper` | the simulated fetch (pure) and the scraper's nested loop (imperative) |

Some things the model receives as parameters:

- Randomness and the clock are a `Draw`. It holds the chosen status, the
  two `randint` results and the current time.
- A fetch that raises is a `None` from the `fetch` parameter.
- The file the ETL reads is a `BatchFile`.
- Database failures during the load are a `DbFault`.
- The database the query endpoints read is an `Option<Database>`. `None`
  means connecting or querying raised.

The main results:

- With the fixed constants, the alert is exactly "count < 30"
  (`AlertIffBelowThirty`).
- Every record the simulator produces alerts exactly when its status is
  not "full" (`SimulatedAlert`). This holds for every batch a scraper run
  collects (`CollectedAlerts`).
- A scraper run records every store whose fetch succeeds, whatever the other
  fetches do, and holds exactly one record per successful fetch
  (`RunScraper`).
- A successful load appends the transformed batch to the log, in order.
  Any failure leaves the log unchanged (`EtlProcess`).
- The latest selection keeps one newest row per (store, product) key of
  the area (`LatestRecords`).
- The summary reports the number of out-of-stock latest records and, in its
  message, the number of the other alerting latest records. The two never
  overlap, the message is "None" exactly when every alerting record is out
  of stock, and the count parses back out of the message
  (`GetStockSummary`, `AlertMessageRoundTrip`).
- Suppose store ids are unique. Then the listing holds every store of the
  area once, in table order, with its own name and exactly its latest
  products (`GetStoresByArea`).

### Two consequences of the code

- A failure part-way through a batch persists nothing. `conn.commit()`
  (`app.py:83`) runs only after the last insert. An exception before that
  leaves the transaction uncommitted, and it is discarded with the
  connection.
- An empty batch file (`[]`) builds a DataFrame without a `stock_count`
  column. Reading that column raises `KeyError`, so the run reports the
  generic ETL error rather than "loaded 0 records" (`LacksCountColumn`).

## Model

| member | source | states |
|---|---|---|
| Stock.DaysOfInventory | app.py:56-57 | the DOI times the daily sales guess (10) gives back the count; a non-negative count gives a non-negative DOI |
| Stock.IsOosAlert | app.py:60 | definition: the count is zero or the DOI is below the threshold |
| Stock.AlertIffBelowThirty | app.py:19-20 | with sales guess 10 and threshold 3, the alert rule (count 0 or DOI below 3) holds exactly when the count is below 30; a zero count always alerts |
| Stock.Transform | app.py:66-81 | the history row keeps the observation's timestamp, store, product, status, count and price, drops the area, carries count/10 as DOI and alerts exactly on counts below 30 |
| Stock.TransformBatch | app.py:54-60 | the transformed batch has one row per observation, in input order, each the transform of its observation |
| Stock.TransformBatchRule | app.py:57-60 | every transformed row satisfies DOI × daily sales guess = count, and its alert is the rule of `IsOosAlert` on its count and DOI |
| Loader.HistoryTable.Insert | app.py:72-81 | an insert joins the open transaction; committed rows are unchanged |
| Loader.HistoryTable.Commit | app.py:83 | commit appends the transaction's rows to the log, in order, and empties the transaction |
| Loader.HistoryTable.Abandon | app.py:88-94 | a dropped connection discards the open transaction without touching the log |
| Loader.LacksCountColumn | app.py:54-57 | definition: the empty batch builds a frame without a `stock_count` column, so reading it raises `KeyError` |
| Loader.EtlProcess | app.py:46-94 | a missing file gives the file-not-found outcome. An unreadable or empty batch gives the ETL error. An `OperationalError` while connecting or inserting gives the connection error, and any other exception there gives the ETL error (each is an if-and-only-if). On success the count is the batch length and the log gains exactly the transformed batch, in order. On every failure the log is unchanged. |
| Unique.FirstSeen | app.py:198-205 | the key order of the dictionary is never longer than the sequence of keys offered |
| Unique.FirstSeenDistinct | app.py:198-205 | the key order has no repetitions |
| Unique.FirstSeenFrom | app.py:198-205 | every key in the order was offered |
| Unique.FirstSeenMember | app.py:198-205 | de-duplication keeps exactly the input's elements |
| Unique.FirstSeenSnoc | app.py:200-205 | adding a key extends the first-seen order exactly when the key is new |
| Unique.FirstSeenOfDistinct | app.py:198-215 | a sequence without repetitions is its own first-seen order |
| Latest.InArea | app.py:126-127 | definition: some row of the stores table has the id and lies in the area |
| Latest.AreaHistory | app.py:125-127 | a history row survives the join with `stores` and the area filter exactly when some store of the area has its id |
| Latest.KeyOf | app.py:124 | definition: the partition key is the store id and the product name |
| Latest.Group | app.py:124 | a partition holds exactly the rows with its (store, product) key |
| Latest.Newest | app.py:124 | the rank-1 row of a partition belongs to it and no row of it has a later timestamp |
| Latest.NewestOfKey | app.py:124 | for a key present in the rows, the chosen row has that key and is newest among its key's rows |
| Latest.LatestOf | app.py:120-133 | the rank-1 rows come from the input, have pairwise distinct keys, cover every key of the input, and each is newest of its key |
| Latest.LatestRecords | app.py:120-133 | the area's latest rows come from the log and from stores of the area, one per (store, product) key of the area's history and none older than another row of its key |
| Summary.CountOos | app.py:140 | the out-of-stock count is at most the number of latest rows |
| Summary.CountLowAlert | app.py:141 | the low-alert count is at most the number of latest rows |
| Summary.IsOos | app.py:140 | definition: the record's status is "OOS" |
| Summary.IsLowAlert | app.py:141 | definition: the record alerts and its status is not "OOS" |
| Summary.CountOosIsCardinality | app.py:140 | the out-of-stock count is the number of latest rows whose status is "OOS" |
| Summary.CountLowAlertIsCardinality | app.py:141 | the low-alert count is the number of latest rows that alert and whose status is not "OOS" |
| Summary.CountsDisjoint | app.py:140-141 | the two counts together are at most the number of latest rows, as no row falls in both |
| Summary.NoLowAlertIff | app.py:141 | the low-alert count is zero exactly when every alerting row is out of stock |
| Summary.NoOosIff | app.py:140 | the out-of-stock count is zero exactly when no row is out of stock |
| Summary.NatToDecimal | app.py:144 | the decimal rendering is a non-empty digit string without a leading zero (except for 0) |
| Summary.DecimalRoundTrip | app.py:144 | reading the decimal rendering back gives the number |
| Summary.AlertMessage | app.py:144 | the message is "None" exactly for a zero count, and otherwise starts with "Low in " |
| Summary.AlertMessageRoundTrip | app.py:144 | the count can be read back from the message, so distinct counts give distinct messages |
| Summary.AreaMissing | app.py:110-111 | definition: the `area` parameter is absent or empty (`not area_code`) |
| Summary.GetStockSummary | app.py:104-158 | a missing or empty area gives the 400 error, and only then. Otherwise a failing database gives the 500 error, and only then. Otherwise the response echoes the area, `oos_products` is the number of the area's latest rows that are out of stock, and the message renders the number of latest rows that alert without being out of stock. The two counts together do not exceed the latest rows, the out-of-stock count is zero exactly when no latest row is out of stock, the message is "None" exactly when every alerting latest row is out of stock, and the message parses back to its count. |
| Listing.MatchRows | app.py:190-191 | a store's matched rows carry its id and name and a present product and DOI, and there are none exactly when no latest row has its id |
| Listing.StoreRows | app.py:190-192 | each store of the area contributes at least one row carrying its id and name; a row with a product also has a DOI |
| Listing.JoinRows | app.py:184-192 | every joined row with a product also carries a DOI |
| Listing.AreaStoreIds | app.py:190-192 | an id is listed exactly when some store of the area has it |
| Listing.Listed | app.py:206 | definition: a row lists a product when its name is neither NULL nor empty |
| Listing.EntryOf | app.py:207-211 | definition: the product entry carries the row's name and status, and its DOI or N/A when the DOI is NULL |
| Listing.Opened | app.py:200-205 | after the step the row's store id is a key of the dictionary |
| Listing.Appended | app.py:206-211 | definition: a listed row appends its entry to its store's products |
| Listing.AddRow | app.py:200-211 | definition: one iteration of the grouping loop on the dictionary |
| Listing.GroupMap | app.py:198-211 | definition: the dictionary after a prefix of the rows |
| Listing.Grouping | app.py:198-215 | definition: the reference grouping, one entry per first-seen store id |
| Listing.NameFor | app.py:200-205 | definition: the store name on the first row of a store id |
| Listing.ProductsFor | app.py:206-211 | definition: the entries of a store id's listed rows, in row order |
| Listing.GroupByStore | app.py:198-215 | the loop over the rows, with its dictionary updates, returns exactly the grouping of the rows (`Grouping`) |
| Listing.GroupingEntries | app.py:198-215 | the grouping yields one entry per store id in first-appearance order; each entry has the name from the store's first row and the entries of all its rows whose product name is non-empty, in row order, with a NULL DOI shown as N/A |
| Listing.GroupMapKeys | app.py:200-205 | after any prefix of the rows the dictionary's keys are exactly the store ids seen |
| Listing.GroupMapGrouped | app.py:198-211 | after any prefix of the rows the dictionary holds, for each store id seen, the entry named by its first row with the products of its listed rows so far |
| Listing.OrderStep | app.py:200-205 | a row adds its store id to the key order exactly when the dictionary did not hold it yet |
| Listing.GroupedKeys | app.py:215 | after the last row every key is in the dictionary, and the values in key order are the grouping |
| Listing.JoinRowIds | app.py:184-192 | the first-seen store ids of the joined rows are the first-seen ids of the area's stores, so stores without history are listed too |
| Listing.JoinNoHistoryNoProducts | app.py:191-192 | a store with no latest row gets no products |
| Listing.ProductsHaveDoi | app.py:206-211 | when every row with a product carries a DOI, no listed product falls back to N/A |
| Listing.LatestProductsMember | app.py:187-191 | a store's expected products are exactly its latest rows with a non-empty name, each with its status and DOI |
| Listing.MatchRowsProducts | app.py:190-191 | the products grouped from a store's matched rows are exactly its latest products |
| Listing.JoinRowsFromStores | app.py:190-192 | every joined row carries the id and name of some store of the area |
| Listing.JoinProducts | app.py:184-211 | with unique store ids, the products the join gives a store of the area are exactly its latest products, in order |
| Listing.JoinName | app.py:185-205 | with unique store ids, every store of the area appears among the joined rows and its first row carries its name |
| Listing.AreaStoreIdsDistinct | app.py:190-192 | with unique store ids, the area's store ids have no repetitions |
| Listing.ListedEntry | app.py:198-215 | with unique store ids, every store of the area has an entry with its id, its name and its latest products |
| Listing.GetStoresByArea | app.py:160-219 | a missing or empty area gives the 400 error, and only then. Otherwise a failing database gives the 500 error, and only then. Otherwise the listing's ids are the area's store ids in first-seen table order. A store without history has no products, and no listed product shows N/A. With unique store ids, the listing is exactly the area's stores, each with its name and its latest products. |
| Scraper.StockOptions | scraper.py:16-20 | the options table has exactly the three status keys |
| Scraper.ChosenOption | scraper.py:29 | the chosen option costs 199.0 |
| Scraper.ChosenOptionIsLookup | scraper.py:16-29 | taking the option at the chosen position is the same as looking the chosen status up in the options table |
| Scraper.SimulateFetch | scraper.py:15-39 | a simulated record echoes the area, store, clock and product. Its status is the drawn one, and its count and price are the options-table entry for that status: 30..100 when full, 1..15 when low, 0 when out of stock, always at 199.0 |
| Scraper.SimulatedAlert | scraper.py:15-39 | transforming a simulated record raises the alert exactly when its status is not "full" |
| Scraper.StorePairs | scraper.py:46 | one area's visits are its stores, in order |
| Scraper.Pairs | scraper.py:45-46 | definition: the (area, store) pairs in the order the nested loops visit them |
| Scraper.PairsMember | scraper.py:45-46 | an (area, store) pair is visited exactly when the store is listed under that area |
| Scraper.FivePairs | scraper.py:7-10 | the fixed area table has five stores to visit |
| Scraper.Visit | scraper.py:47-58 | a visit contributes at most one record; definition: the simulation when the fetch succeeds, nothing when it raises |
| Scraper.Collected | scraper.py:45-58 | a run collects at most one record per visited store |
| Scraper.CollectedFrom | scraper.py:47-58 | every collected record is the simulation of a visited store whose fetch succeeded |
| Scraper.CollectedMember | scraper.py:47-58 | a store whose fetch succeeds has its record collected, whatever the other fetches do |
| Scraper.CollectedCount | scraper.py:45-58 | a run collects exactly as many records as there are successful fetches |
| Scraper.CollectedAll | scraper.py:45-50 | when no fetch fails, each visited store yields its record, in visiting order |
| Scraper.CollectedAlerts | scraper.py:41-62 | a collected batch, once transformed, alerts exactly on its rows that are not "full" |
| Scraper.RunScraper | scraper.py:41-62 | the run's records are the successful simulations over the stores of the area table, in order, skipping failed fetches. There are at most five, exactly one per successful fetch, and every store whose fetch succeeds has its record whatever the other fetches do. |

## Left out

- HTTP plumbing is not modelled: Flask routing, `jsonify`, the status codes and CORS. The responses are datatypes with one variant per outcome.
- `process_data_endpoint` is not modelled separately. It always answers 200 with the ETL message, and the ETL outcome is modelled.
- Only the kind of each ETL message is modelled, not its text or the exception details it embeds.
- `get_db_connection` is not modelled: neither the choice between `DATABASE_URL` and the local settings nor the URL parsing. Its failure is the `ConnectFails` fault or a `None` database; `ConnectFails(true)` is a refused connection raising `OperationalError`, and `ConnectFails(false)` any other exception, such as the `ValueError` of a malformed port in `DATABASE_URL`.
- JSON file I/O is not modelled: neither reading `stock_data.json` nor the scraper writing it. The batch file is a parameter, and `Unreadable` stands for every failure before the connection is opened (`app.py:51-60`): `json.load` fails, the data is not a list of records, or the `stock_count` column is missing or non-numeric (an empty batch is not `Unreadable` but a `Batch` that `LacksCountColumn`). Records lacking another inserted field fail only at the first insert's row lookup (`app.py:75`), after connecting: such a batch behaves as a `Batch` under `ConnectFails(true)` or `InsertFails(0, false)`. Records lacking `area` load normally, since `area` is never read.
- A failing `commit`, `cursor.close` or `conn.close` is not modelled. Faults are a refused connection or a raising insert.
- Logging (`print`) is not modelled.
- Randomness is not modelled. The 60/25/15 weights and the uniform distributions are not modelled: a `Draw` supplies the choice and the counts, within the ranges the source draws from.
- The clock is not modelled. Timestamps are integers standing for ISO-8601 instants, which compare the same way.
- `time.sleep`, the scraper's endless outer loop and its interval are not modelled.
- RunScraper: only a failing fetch is skipped. An exception raised after the record is appended, by the `print` or the `sleep`, would keep the record. The model does not produce that case.
- Floating point is not modelled. DOI is an exact `real`, so `count / 10` has no rounding.
- A NULL `days_of_inventory` in `stock_history` is not modelled: a history row always carries a DOI, as `etl_process` is the only writer of the table and always fills the column. A NULL DOI then arises only on the LEFT JOIN's NULL row of a store without history, which lists no product, so the model never shows the N/A of `app.py:210`.
- SQL leaves ties between rows with equal timestamps unspecified. `Latest.Newest` picks the earliest-logged of them.
- SQL leaves the row order of the LEFT JOIN unspecified. `Listing.JoinRows` uses stores-table order, then latest-record order.
- Listing.GetStoresByArea: exact names and products per store are stated only when store ids are unique, as the `stores` table's key makes them. Without that, the contract states the store ids, stores without history and the DOI rule only.
