# Crypto instrument reference-data synchronizer — Dafny model

The synchronizer fetches reference data for a fixed allow-list of six
cryptocurrency pairs (BTCUSDT, ETHUSDT, SOLUSDT, LINKUSDT, BNBUSDT, AVAXUSDT)
from Binance and OKX. It covers spot and perpetual products. It turns each
kept instrument into one `ReferenceData` record: product type, exchange,
exchange symbol, tick size and lot size. Then it upserts the records into the
`reference_data` table, keyed by (product_type, exchange, exchange_symbol).

This model covers what happens after the exchange responses are decoded:

- `refdata.dfy` (module `RefData`): the record, the text labels `spot`/`perp`
  and `binance`/`okx`, and the allow-list `Symbols`.
- `binance.dfy` (module `BinanceFetch`): the Binance selection loop, written
  once with the product type as a parameter. It covers `fetch_binance_spot`
  and `fetch_binance_futures`. It includes the inner filter scan: the last
  `PRICE_FILTER` gives the tick size, the last `LOT_SIZE` gives the lot size,
  and a missing filter leaves `""`. The spec function `SelectBinance` states
  the result, and `FetchBinance` (a loop) is proved equal to it.
- `okx.dfy` (module `OkxFetch`): the OKX selection loop for SPOT and SWAP. The
  instrument id with every `-` removed (`StripHyphens`) is checked against the
  allow-list. The record keeps the original hyphenated id and copies `tickSz`
  and `lotSz` verbatim.
- `store.dfy` (module `Store`): the table as a `map` from key to row. It has
  the `ON CONFLICT ... DO UPDATE` semantics as `Upserted` and `UpsertAll`.
  The `Table` class has a row map field and a clock field standing for
  `CURRENT_TIMESTAMP`. Each statement advances the clock by one.
- `sync.dfy` (module `Sync`): `main`. The four fetchers run in a fixed order,
  their results are concatenated, the count is reported, and the records are
  saved.

The Binance fetcher code and the Binance futures fetcher code are identical
except for the `"spot"`/`"perp"` label (src/main.rs:100-124 and
src/main.rs:139-163). The same holds for the two OKX fetchers
(src/main.rs:178-192 and src/main.rs:207-221).

This source version stores the raw exchange symbol and the raw size strings.
It has no "BASE/QUOTE-PRODUCT" display symbol and does not strip trailing
zeroes. The model follows this code. The repository's general description also
mentions a normalising variant; that variant is not part of this model.

## Model

| member | source | states |
|---|---|---|
| `BinanceFetch.ScanFilters` | src/main.rs:106-115 | The filter loop ends with the tick size of the last PRICE_FILTER and the lot size of the last LOT_SIZE, each `""` when absent. |
| `BinanceFetch.LastTickNone` | src/main.rs:106-115 | Without any PRICE_FILTER, the tick size is the empty string. |
| `BinanceFetch.LastTickAt` | src/main.rs:109-115 | If the PRICE_FILTER at position i has no later PRICE_FILTER, the tick size is its `tickSize`. |
| `BinanceFetch.LastLotNone` | src/main.rs:106-115 | Without any LOT_SIZE, the lot size is the empty string. |
| `BinanceFetch.LastLotAt` | src/main.rs:109-115 | If the LOT_SIZE at position i has no later LOT_SIZE, the lot size is its `stepSize`. |
| `BinanceFetch.ScanAppend` | src/main.rs:109-115 | Scanning fs ++ gs: a match in gs overrides fs, otherwise fs decides; this holds for tick and lot separately. |
| `BinanceFetch.OtherIgnored` | src/main.rs:40-49 | A filter of any other kind, wherever it stands, changes neither tick size nor lot size. |
| `BinanceFetch.FetchBinance` | src/main.rs:100-124 | The selection loop (spot; futures at 139-163 with pt = Perp) returns exactly `SelectBinance` of its input. |
| `BinanceFetch.SelectBinanceAppend` | src/main.rs:101-124 | Selection preserves order: the selection of a ++ b is the selection of a followed by that of b. |
| `BinanceFetch.SelectBinanceMember` | src/main.rs:101-123 | A record is produced iff some allow-listed input symbol yields it (its symbol, last tick, last lot, fetcher labels). |
| `BinanceFetch.SelectBinanceCount` | src/main.rs:101-104 | Each allow-listed symbol appears among the records exactly as often as among the inputs; an unlisted symbol never appears. |
| `OkxFetch.StripHyphens` | src/main.rs:180 | The normalised id contains no '-', is no longer than the id, and equals the id when the id has no '-'. |
| `OkxFetch.StripHyphensAppend` | src/main.rs:180 | Hyphen removal works piecewise over concatenation. |
| `OkxFetch.StripHyphensKeepsOthers` | src/main.rs:180 | Every character other than '-' occurs in the normalised id exactly as often as in the id. |
| `OkxFetch.StripHyphensIdempotent` | src/main.rs:180 | Removing hyphens twice gives the same as removing them once. |
| `OkxFetch.StripPair` | src/main.rs:180 | "BASE-QUOTE" normalises to "BASEQUOTE" when neither part has a hyphen. |
| `OkxFetch.OkxListedBtcUsdt` | src/main.rs:180-181 | "BTC-USDT" normalises to "BTCUSDT" and passes the allow-list. |
| `OkxFetch.OkxNotListedBtcUsd` | src/main.rs:180-183 | "BTC-USD" normalises to "BTCUSD" and is rejected. |
| `OkxFetch.FetchOkx` | src/main.rs:178-192 | The selection loop (spot; swap at 207-221 with pt = Perp) returns exactly `SelectOkx` of its input. |
| `OkxFetch.SelectOkxAppend` | src/main.rs:179-192 | Selection preserves order: it distributes over concatenation of the instrument list. |
| `OkxFetch.SelectOkxMember` | src/main.rs:179-191 | A record is produced iff an instrument whose hyphen-free id is allow-listed yields it, with the unstripped id and verbatim `tickSz`/`lotSz`. |
| `OkxFetch.SelectOkxLabels` | src/main.rs:185-190 | Every OKX record carries the `okx` label and its product type label, and its id passes the allow-list test. |
| `OkxFetch.SelectOkxCount` | src/main.rs:179-183 | An id that passes the allow-list test appears among the records exactly as often as among the inputs; any other id never appears. |
| `RefData.ListedHasNoHyphen` | src/main.rs:65 | No allow-listed symbol contains a '-'. |
| `Store.UpsertAllKeys` | src/main.rs:247-264 | After a run of upserts, the table's keys are the old keys plus the records' keys, and no others. |
| `Store.UpsertAllUntouched` | src/main.rs:247-264 | A row whose key no record carries is left exactly as it was. |
| `Store.UpsertAllLastWins` | src/main.rs:252-256 | For each key, the row holds the tick size and lot size of the last record with that key, stamped at that record's statement. |
| `Store.UpsertAllStamps` | src/main.rs:240 | `updated_at` never goes backwards: every old row keeps or advances its stamp, and no stamp exceeds the clock. |
| `Store.UpsertAllIdempotent` | src/main.rs:247-264 | Upserting the same records again leaves the same tick and lot sizes for every key; only timestamps differ. |
| `Store.Table.constructor` | src/main.rs:232-244 | A new table is empty, with the clock at zero. |
| `Store.Table.Upsert` | src/main.rs:248-264 | A new key gets a row. An existing key keeps its row with the new tick size, lot size and a strictly later stamp. Every other row is unchanged. |
| `Store.Table.SaveAll` | src/main.rs:247-266 | The loop upserts the records in list order: the new rows are `UpsertAll` of the old rows, and the clock advances once per record. |
| `Sync.FetchAll` | src/main.rs:71-81 | The combined list is Binance spot, Binance futures, OKX spot, OKX swap, in that order; the reported count is the sum of the four lengths. |
| `Sync.Synchronize` | src/main.rs:68-88 | A run leaves the table equal to `UpsertAll` of the combined list over the old table. |
| `Sync.CombinedRecordsListed` | src/main.rs:71-79 | Every record of a run has one of the four fetcher label pairs, and its symbol with hyphens removed is allow-listed. |
| `Sync.FetcherKeysDisjoint` | src/main.rs:241 | Records from different fetchers never share a table key. |

Key uniqueness, meaning at most one row per (product_type, exchange,
exchange_symbol), holds by construction: the table is a `map` on that key.

## Left out

- HTTP requests and async execution (src/main.rs:90-98 and the three copies after it). The fetchers take the decoded instrument lists as inputs.
- JSON decoding and its failure modes (src/main.rs:14-63). Decoding is taken as given. The error paths (`?`) that abort the run on network, decoding or database failure are not modelled.
- Opening the database file and the `CREATE TABLE IF NOT EXISTS` statement (src/main.rs:228-244). `Store.Table.constructor` stands for a fresh, empty table.
- The `AUTOINCREMENT` `id` column. Rows are identified only by their unique key.
- `Store.Table.Upsert`: `CURRENT_TIMESTAMP` is modelled as a counter that grows by exactly one per statement. The real clock has one-second resolution, so two statements can get the same stamp. The model's "strictly later" stamp is therefore stronger than the database gives; the reliable claim is "not earlier".
- Progress and "Saved:" printing (src/main.rs:69, 81, 86, 265).
- visualize.py is not part of this model. It reads the table through pandas and serves an HTML page over a threaded HTTP server. It selects a column `symbol`, while the table created in src/main.rs:237 names that column `exchange_symbol`.
