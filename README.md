# Country catalog refresh, modelled in Dafny

The country-currency API keeps a MySQL catalog of countries. Its refresh endpoint works in five steps:

1. It fetches the country list and the exchange-rate table together.
2. For each fetched country it derives a currency code, an exchange rate and a randomised GDP estimate.
3. It upserts each country into the `countries` table, matching names case-insensitively.
4. It records the number of processed countries and the time in the single `app_metadata` row.
5. It renders a summary of the five largest GDPs.

Any failure answers HTTP 503, and nothing is rolled back.

This project models that pass and the catalog operations it is built on:

- `types.dfy` (module `Types`): the records of `src/types/index.ts`, plus the stored row (id, record, timestamp) and the metadata row of `setup-tables.js`. SQL NULL is `Option.None`.
- `names.dfy` (module `Names`): `LOWER(name) = LOWER(?)` as ASCII lower-casing, and an order on names for `ORDER BY name`.
- `listing.dfy` (module `Listing`): the `WHERE` filter, as a generic order-preserving `Keep`. Also the four `ORDER BY` orders, with NULL GDP lowest as in MySQL, and a sort proved to give a sorted permutation.
- `country_model.dfy` (module `CountryModel`): `CountryModel` of `src/models/countryModel.ts`, as the class `CountryStore`.
  - Its fields are the rows, the AUTO_INCREMENT counter and the metadata row.
  - Queries are functions. Writes are methods, each with the whole new state in its contract.
  - `Valid()` is the UNIQUE index on `name` together with the id discipline of the counter.
  - The pure table functions the methods are specified by (`FirstMatch`, `Overwritten`, `Without`, `TopByGdp`) sit beside the class, with their lemmas.
- `country_controller.dfy` (module `CountryController`): the refresh handler.
  - `Refresh` is a function that says what one pass does to the catalog and what it answers.
  - `RefreshCountries` is the handler's loop over a `CountryStore`, proved equal to `Refresh`.
- `refresh_properties.dfy` (module `RefreshProperties`): what the pass promises, proved about `Refresh`.
  - Each GDP case, and the bounds of the estimate.
  - Unique names are kept.
  - The last write wins, and every fetched name is stored.
  - A failed fetch writes nothing, and a storage fault keeps the earlier upserts.
  - The count recorded is the processed count.
  - A second pass changes only GDP values and timestamps.

The program's inputs from outside are parameters:

- Each external fetch is a `Fetch` value: either the parsed body or a failure.
- `Math.random()` is a sequence of multipliers in [1000, 2000), one per fetched country.
- `NOW()` is a `now` timestamp, one per pass.
- A storage or image-sink error is an optional `Fault(step, message)`. It says which statement of the pass throws:
  - `step < n`: the statement for country `step` throws;
  - `step = n`: the metadata write throws;
  - `step > n`: the top-GDP query or the image write throws.

`update` (src/models/countryModel.ts:62-79) never sets `name`, so a row keeps the casing it was created with, whatever casing later passes fetch. `Overwrite` keeps the stored name; `UpsertFinds` and `RefreshTwiceKeepsStructure` state it.

## Model

| member | source | states |
|---|---|---|
| Names.Lower | src/models/countryModel.ts:8 | `LOWER` keeps the length, lowers each character, and leaves no upper-case ASCII letter |
| Names.LowerIdempotent | src/models/countryModel.ts:8 | lowering twice equals lowering once, so a lowered name matches its original |
| Names.NameAtMostTotal | src/models/countryModel.ts:33-36 | any two names are ordered one way or the other, so `ORDER BY name` is defined on every pair |
| Names.NameAtMostTransitive | src/models/countryModel.ts:33-36 | the name order is transitive |
| Listing.Keep | src/models/countryModel.ts:15-26 | the filtered rows are exactly those of the input that satisfy the condition, with their multiplicities; the result is as long as the input iff every row passes |
| Listing.ParseSort | src/models/countryModel.ts:28-37 | `gdp_desc`, `gdp_asc`, `name_asc` and `name_desc` select GDP descending, GDP ascending, name ascending and name descending; any other value, or none, gives no `ORDER BY` |
| Listing.GdpNullLowest | src/models/countryModel.ts:30-32 | in the GDP order (`GdpAtMost`, used by `Precedes`), NULL is below every GDP and no GDP is below NULL, as MySQL sorts NULL |
| Listing.PrecedesTotal | src/models/countryModel.ts:28-37 | each of the four orders relates any two rows one way or the other |
| Listing.PrecedesTransitive | src/models/countryModel.ts:28-37 | each of the four orders is transitive |
| Listing.Insert | src/models/countryModel.ts:28-37 | inserting into a sorted list gives a sorted list with one more occurrence of the row |
| Listing.SortRows | src/models/countryModel.ts:28-37 | `ORDER BY` gives a permutation of its input sorted under the order |
| CountryModel.FirstMatchIndex | src/models/countryModel.ts:6-12 | the index of the first row whose name matches case-insensitively; no earlier row matches |
| CountryModel.FirstMatch | src/models/countryModel.ts:6-12 | a found row is in the table and matches the name; nothing is found iff no row matches |
| CountryModel.UniqueMatch | setup-tables.js:23 | with unique names, any matching row is the one the lookup finds |
| CountryModel.FirstMatchAppend | src/models/countryModel.ts:43-60 | appending a row changes a lookup only when nothing matched before and the new row matches |
| CountryModel.FirstMatchSameName | src/models/countryModel.ts:8 | two names with equal lower-case forms find the same row |
| CountryModel.Overwrite | src/models/countryModel.ts:62-79 | an updated row keeps its id and stored name, is stamped with the time, and takes every other field from the record |
| CountryModel.Overwritten | src/models/countryModel.ts:62-79 | the UPDATE keeps the number of rows |
| CountryModel.OverwrittenWellFormed | src/models/countryModel.ts:62-79 | the UPDATE keeps names unique and ids issued, because it changes neither a name nor an id |
| CountryModel.OverwrittenFind | src/models/countryModel.ts:62-79 | after the UPDATE, the lookup by that name finds the old row with every field but the name replaced, stamped with the new time |
| CountryModel.OverwrittenFindOther | src/models/countryModel.ts:62-79 | the UPDATE leaves the lookup by any other name unchanged |
| CountryModel.Without | src/models/countryModel.ts:81-87 | DELETE keeps exactly the rows whose name does not match; a row goes iff some row matched |
| CountryModel.KeepWellFormed | src/models/countryModel.ts:81-87 | removing rows keeps names unique and ids issued |
| CountryModel.Matching | src/models/countryModel.ts:15-26 | the rows passing `Selected` (a non-empty region or currency filter demands an equal column) are kept with their multiplicities, and no others |
| CountryModel.WithGdp | src/models/countryModel.ts:91 | `WHERE estimated_gdp IS NOT NULL` keeps exactly the rows with a GDP, with their multiplicities |
| CountryModel.Ranked | src/models/countryModel.ts:89-95 | the rows with a GDP, with their multiplicities, sorted by GDP descending; nothing else, and none missing |
| CountryModel.TopByGdp | src/models/countryModel.ts:89-95 | `LIMIT` returns at most `limit` entries |
| CountryModel.TopByGdpOrdered | src/models/countryModel.ts:91 | the entries come in non-increasing GDP order |
| CountryModel.TopByGdpFromTable | src/models/countryModel.ts:91 | every entry is the name and non-NULL GDP of a row of the table |
| CountryModel.RankOf | src/models/countryModel.ts:91 | every row with a GDP appears in the ranking |
| CountryModel.RankedDescending | src/models/countryModel.ts:91 | a later row of the ranking has no larger GDP |
| CountryModel.TopByGdpComplete | src/models/countryModel.ts:89-95 | a row whose GDP exceeds the i-th entry's is listed before it, so nothing above the cut is missed |
| CountryModel.TopByGdpShortIsAll | src/models/countryModel.ts:89-95 | when fewer than `limit` entries come back, every row with a GDP is among them |
| CountryModel.CountryStore.constructor | setup-tables.js:20-49 | the setup leaves no countries, a counter at 1 and `total_countries = 0` with no refresh time |
| CountryModel.CountryStore.FindByName | src/models/countryModel.ts:6-12 | the case-insensitive lookup finds a matching row of the table, or nothing iff no row matches |
| CountryModel.CountryStore.FindAll | src/models/countryModel.ts:14-41 | the listing holds exactly the rows passing the region and currency filters, with their multiplicities; it is sorted for a recognised `sort`, and in table order otherwise |
| CountryModel.CountryStore.GetTopByGdp | src/models/countryModel.ts:89-95 | at most `limit` entries, highest GDP first |
| CountryModel.CountryStore.Create | src/models/countryModel.ts:43-60 | the INSERT is rejected iff a row with the same name (ignoring case) exists. Otherwise it appends the record under the next id, advances the counter, and the lookup then finds the new row |
| CountryModel.CountryStore.Update | src/models/countryModel.ts:62-79 | every row matching the name takes all fields but the name and is stamped with the time; all other rows, the counter and the metadata are unchanged |
| CountryModel.CountryStore.Delete | src/models/countryModel.ts:81-87 | the result is true iff some row matched; the matching rows and only they are gone, and the lookup finds nothing afterwards |
| CountryModel.CountryStore.UpdateMetadata | src/models/countryModel.ts:97-102 | the metadata read afterwards is the given count with the given time; the countries are unchanged |
| CountryController.CurrencyCode | src/controllers/countryController.ts:25 | a code is the first descriptor's non-empty code; there is none when the list is absent or empty or the first code is empty |
| CountryController.ExchangeRate | src/controllers/countryController.ts:26 | a rate exists only for a currency code, and is never 0 (a 0 rate reads as NULL) |
| CountryController.EstimatedGdp | src/controllers/countryController.ts:28-35 | the GDP is NULL exactly when there is a code but no rate, and 0 when there is no code |
| CountryController.Derive | src/controllers/countryController.ts:37-46 | the record copies name, capital, region, population and flag from the fetched country; a rate only comes with a code |
| CountryController.DeriveAll | src/controllers/countryController.ts:24-46 | one derived record per fetched country |
| CountryController.Upsert | src/controllers/countryController.ts:48-54 | one upsert adds a row exactly when the lookup found none, and the counter advances by the rows added |
| CountryController.UpsertAll | src/controllers/countryController.ts:24-56 | the loop of upserts removes no row and adds at most one per country; the counter advances by the rows added |
| CountryController.Refresh | src/controllers/countryController.ts:12-80 | the pass succeeds iff both fetches and every write succeed. Every failure carries the same 503 error. A success answers and stores the fetched count with the pass's time |
| CountryController.RefreshCountries | src/controllers/countryController.ts:12-80 | the handler leaves the catalog and metadata in the state `Refresh` gives, and answers what `Refresh` answers. This covers both fetch failures, a storage fault at any statement, and success with the processed count and summary |
| RefreshProperties.DerivedCurrencyAndRate | src/controllers/countryController.ts:25-26 | the code is the first descriptor's non-empty code; the rate is that code's non-zero rate, and there is none otherwise |
| RefreshProperties.DerivedGdpCases | src/controllers/countryController.ts:29-35 | the GDP is NULL exactly when a code has no rate, 0 when there is no code, and population × multiplier / rate otherwise |
| RefreshProperties.GdpWithinMultiplierRange | src/controllers/countryController.ts:30-32 | for a positive population and rate, the estimate lies in [population·1000/rate, population·2000/rate) |
| RefreshProperties.ScaledBounds | src/controllers/countryController.ts:31-32 | scaling a multiplier in [1000, 2000) by a positive population and dividing by a positive rate keeps it between the scaled bounds |
| RefreshProperties.ZeroGdpMeansNoCurrency | src/controllers/countryController.ts:29-35 | with positive rates and population, a GDP of exactly 0 means "no currency" and nothing else |
| RefreshProperties.DerivedStructureIgnoresMultiplier | src/controllers/countryController.ts:31-46 | only the GDP value depends on the random draw; every other field, and whether the GDP is NULL, does not |
| RefreshProperties.UsdExample | src/controllers/countryController.ts:29-35 | population 1,000,000 at rate 1.0 gives a GDP in [10^9, 2·10^9) |
| RefreshProperties.UpsertWellFormed | src/controllers/countryController.ts:48-54 | an upsert keeps names unique and ids issued |
| RefreshProperties.UpsertFinds | src/controllers/countryController.ts:48-54 | after an upsert, the lookup finds the existing row overwritten in place with its stored name kept; or, with no existing row, a new row under the next id |
| RefreshProperties.UpsertOtherName | src/controllers/countryController.ts:48-54 | an upsert leaves the lookup by any other name unchanged |
| RefreshProperties.UpsertAllWellFormed | src/controllers/countryController.ts:24-56 | the loop of upserts keeps names unique and ids issued |
| RefreshProperties.UpsertKeepsFound | src/controllers/countryController.ts:48-54 | a row the lookup finds keeps its id and stored name through an upsert |
| RefreshProperties.UpsertAllKeepsFound | src/controllers/countryController.ts:24-56 | a stored row keeps its id and stored name through any run of upserts |
| RefreshProperties.UpsertAllUntouched | src/controllers/countryController.ts:24-56 | a stored country whose name was not fetched keeps its row unchanged |
| RefreshProperties.UpsertAllLastWriteWins | src/controllers/countryController.ts:24-56 | the row for a fetched name holds the fields of the last fetched country with that name, stamped with the pass's time |
| RefreshProperties.LastOccurrence | src/controllers/countryController.ts:24 | every fetched name has a last occurrence in fetch order |
| RefreshProperties.UpsertAllStoresEveryName | src/controllers/countryController.ts:24-56 | after the loop, every fetched name can be looked up |
| RefreshProperties.FetchFailureWritesNothing | src/controllers/countryController.ts:15-18 | a failed fetch leaves catalog and metadata untouched and answers 503 with that source's message |
| RefreshProperties.RefreshKeepsWellFormed | src/controllers/countryController.ts:12-80 | however the pass ends, stored names stay unique ignoring case and ids stay issued and distinct, so this holds after any sequence of passes |
| RefreshProperties.RefreshRecordsProcessedCount | src/controllers/countryController.ts:55-72 | a completed pass stores and answers the processed count with the pass's time; the summary holds that count and the top five GDPs of the new catalog; the catalog grows by at most the fetched count |
| RefreshProperties.RefreshCompleted | src/controllers/countryController.ts:24-72 | (helper: `Refresh`'s success branch, unfolded for the scenario lemmas) a completed pass is the upserts of the derived records, the metadata row (fetched count, pass time) and a summary of the top five GDPs of the new catalog |
| RefreshProperties.ProcessedCountIsNotCatalogSize | src/controllers/countryController.ts:55-59 | "France" and "FRANCE" in one fetch make one row but count as two processed countries |
| RefreshProperties.RefreshStoresEveryCountry | src/controllers/countryController.ts:24-56 | a completed pass leaves every fetched country findable by name |
| RefreshProperties.RefreshFaulted | src/controllers/countryController.ts:48-59 | (helper: `Refresh`'s early-fault branches, unfolded for `FaultKeepsEarlierUpserts`) a pass stopped by a storage fault at or before the metadata write is the upserts of the records before the fault, with the metadata untouched and the 503 as its answer |
| RefreshProperties.FaultAfterMetadata | src/controllers/countryController.ts:59-78 | a fault in the top-GDP query or the image write leaves every upsert and the new metadata row (fetched count, pass time) committed, yet answers the same 503 |
| RefreshProperties.PrefixUpserts | src/controllers/countryController.ts:24-56 | after the upserts of the first n records every name among them is stored, and holds the last record under that name, stamped with the pass's time |
| RefreshProperties.FaultKeepsEarlierUpserts | src/controllers/countryController.ts:48-59 | a fault part-way through rolls nothing back. Each country processed before it keeps the record the pass wrote (the last one under its name), stamped with the pass's time. The metadata is untouched, and the answer is the 503 |
| RefreshProperties.RefreshWritesLastOccurrence | src/controllers/countryController.ts:37-54 | after a pass, each fetched name's row holds the derived record of the last fetched country with that name |
| RefreshProperties.RefreshTwiceKeepsStructure | src/controllers/countryController.ts:24-56 | a second pass on the same data keeps each row's id and stored name, and changes no field but the GDP value (never its NULL-ness) and the timestamp |
| RefreshProperties.MissingRateScenario | src/controllers/countryController.ts:26-35 | a country whose currency has no rate is stored with a NULL GDP, counted, and left out of the top list |

## Left out

- HTTP and Express: requests and responses are values. The model's outcome of a completed pass is `Refreshed(count, summary)`: the response's `total_processed` together with the record handed to the image sink, which the response itself does not carry. The fixed `message` string of that response is not modelled. A failed pass gives `Unavailable(error, details)`, the 503 body.
- The axios requests and their timeouts in src/services/externalApi.ts are not modelled. Each fetch is an input: its parsed body or a failure with the service's message.
- Concurrency: `Promise.all` reports whichever fetch fails first. When both fail, the model reports the country source's message.
- Overlapping refresh passes, whose upserts and metadata writes could interleave: the model is one sequential pass at a time, over a store no other request writes during it.
- Integer widths: `id` and `total_countries` are MySQL `INT` columns (setup-tables.js:22, 43) and `population` is `BIGINT`; the model's `nat` and `int` are unbounded, so AUTO_INCREMENT exhaustion and out-of-range counts are not modelled.
- Image rendering (src/services/imageService.ts) is not part of this model. The summary handed to it is part of `Refreshed`, and a rendering error is a `Fault` after the metadata write.
- `Math.random()` and `NOW()` are parameters: one multiplier per country, and one timestamp per pass.
- Floating point and the DECIMAL(15,6) and DECIMAL(20,2) columns: rates and GDPs are exact reals, with no rounding on store.
- The JavaScript lookup `rates[code]` for a code that names an inherited object property: rates are a plain map.
- Collation: names match by ASCII lower-casing, and the UNIQUE index uses the same case-insensitive key. `ORDER BY name` is code-point lexicographic, and the region and currency filters are exact string equality. The collation rules for accents and non-ASCII letters are not modelled.
- Ties in `ORDER BY` and rows with equal GDP: MySQL promises no order among them. The model's sort is stable, so it keeps tied rows in store order; no contract depends on that choice, but `TopByGdp` (and so the summary) fixes one of the valid answers when GDPs tie at the cut.
- Storage errors other than the UNIQUE index (a lost connection, a value too long for its column) are not modelled individually. They are covered only as a `Fault` at some step.
- The `id?` and `last_refreshed_at?` fields of `Country`: these belong to the stored `Row`, not to the record the controller builds.
- CountryModel.CountryStore.Create: a rejected INSERT leaves the id counter unchanged. An AUTO_INCREMENT column promises unique ids, not gapless ones, and InnoDB may use up a value on a failed INSERT; the model does not capture such gaps. Within a refresh pass the rejection never happens.
- CountryModel.CountryStore.GetMetadata: a plain read of the metadata row with no contract of its own; `UpdateMetadata` states what it then returns.
- The other handlers of src/controllers/countryController.ts (listing, single lookup, delete, status, image) are thin HTTP wrappers around the model operations above and are not modelled.
