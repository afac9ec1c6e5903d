# Arctic database adapter: bar overview bookkeeping

This project models the part of `ArcticDatabase` (the vn.py database adapter
over the Arctic/MongoDB storage client) that has logic of its own. The rest
of the adapter copies fields into pandas frames and calls the storage client.
Two pieces are modelled:

- **Table names.** `generate_table_name` builds the key of a series. A bar
  table is named `symbol_exchange_interval` and a tick table `symbol_exchange`.
  The same key names the chunk-store table and the overview record.
- **The bar overview store.** This is a metadata store with one record
  `{symbol, exchange, interval, start, end, count}` per bar table.
  - `save_bar_data` creates the record on the first write to a table.
  - Later writes widen `start`/`end` with min/max.
  - Every write replaces `count` with the row count the chunk store reports.
  - `delete_bar_data` purges the record.
  - `get_bar_overview` lists one record per table.
  - Tick saves and deletes never touch the overview store.

Modules:

- `Wrappers` (`wrappers.dfy`): `Option` and `Result`.
- `TableNames` (`table_names.dfy`): `TableName`, plus a parser
  `ParseTableName` that inverts it when the symbol and the exchange contain
  no `_`.
- `ArcticDatabase` (`arctic_database.dfy`):
  - the entities `Bar`, `Tick` and `Overview`;
  - the store `map<string, Overview>`;
  - the operations as pure functions returning `Outcome(store, result)`;
  - the listing as a method;
  - the store invariant `Valid`.
- `OverviewProperties` (`overview_properties.dfy`):
  - the invariant is preserved;
  - a run of saves (`SaveAll`) records the least start, the greatest end and
    the last count;
  - the order of the saves does not change the recorded range;
  - concrete scenarios.

How the model abstracts the adapter:

- Timestamps are integers.
- Exchange and interval are their enum `.value` strings.
- The chunk store is not modelled. The row count that
  `get_info(name)["len"]` reports is a parameter of the operations that read
  it.
- A Python exception becomes `Failure` with the overview store unchanged.
- The metadata store's versioned `append`/`read` is a map whose `read`
  returns the latest value.

Behaviour of the code that the model reproduces on purpose:

- The batch range comes from `bars[0]` and `bars[-1]` only, not from every
  bar. A sorted batch is fully covered (`SortedBatchCovered`). For an
  unsorted batch such as 100, 105, 103, the code records 100..103, not
  100..105 (`UnsortedBatchEscapesRange`).
- An empty batch raises `IndexError` at `bars[0]` (`EmptyBatch`). It is not a
  dedicated invalid-batch error.
- Suppose a bar has no interval and its table has no record yet. The adapter
  raises `AttributeError` at `bar.interval.value` (`NoInterval`). This happens
  after the data write, and no record is created.
- `save_tick_data` has no `return` statement, so it returns `None`. It is
  modelled as `Success(())`, not `True`.
- In the merge branch, the record keeps the symbol, exchange and interval it
  was created with.
- `get_bar_overview` lists every stored record once, in an order the model leaves open.
- There is no point lookup `get_overview` in the adapter, so none is
  modelled.

## Model

| member | source | states |
|---|---|---|
| TableNames.TableName | vnpy_arctic/arctic_database.py:330-335 | The name starts with symbol, separator, exchange. It has exactly that length iff there is no interval. Otherwise the rest of the name is one more separator followed by the interval. |
| TableNames.ParseTableNameInverts | vnpy_arctic/arctic_database.py:330-335 | When symbol and exchange contain no `_`, splitting a generated name at its first two `_` gives back symbol, exchange and interval, including whether the interval was given. |
| TableNames.TableNameInjective | vnpy_arctic/arctic_database.py:330-335 | Under the same condition, distinct (symbol, exchange, interval) keys never share a table or an overview record. |
| TableNames.TableNameCollision | vnpy_arctic/arctic_database.py:330-335 | Without that condition names collide: `IF_2312`/`CFFEX` and `IF`/`2312_CFFEX` produce the same table name. |
| ArcticDatabase.BatchStart | vnpy_arctic/arctic_database.py:83 | The batch start is at most the first and the last bar's time and equals one of them. |
| ArcticDatabase.BatchEnd | vnpy_arctic/arctic_database.py:84 | The batch end is at least the first and the last bar's time and equals one of them. |
| ArcticDatabase.SaveBarData | vnpy_arctic/arctic_database.py:67-106 | Raises exactly on an empty batch (`IndexError`), or on a first save without an interval (`AttributeError`, the only error a non-empty batch can raise), and then leaves the store unchanged. Otherwise returns True and changes only the first bar's table, which ends up present. Its count is the reported count. Its range covers the batch endpoints. A new record takes its identity from `bars[0]` and spans exactly the endpoints. An existing record keeps its identity, and its start only decreases and its end only increases, to the old bound or the batch's. |
| ArcticDatabase.DeleteBarData | vnpy_arctic/arctic_database.py:268-288 | Returns the row count read before deletion. Removes the record of exactly that table. Every other record is unchanged. |
| ArcticDatabase.SaveTickData | vnpy_arctic/arctic_database.py:108-162 | Leaves the overview store unchanged. Raises exactly on an empty batch, and then the `IndexError` of `ticks[0]`. |
| ArcticDatabase.DeleteTickData | vnpy_arctic/arctic_database.py:290-306 | Leaves the overview store unchanged. Returns the tick row count read before deletion. |
| ArcticDatabase.GetBarOverview | vnpy_arctic/arctic_database.py:308-327 | Lists each stored table name exactly once, with no repeats and none missing, and pairs each with that name's record. Every listed item is a stored record, and every stored record is listed. In a valid store no record is listed twice. |
| OverviewProperties.SaveBarDataPreservesValid | vnpy_arctic/arctic_database.py:83-98 | A save keeps every record's `start <= end` and keeps every record filed under the table its own fields name. |
| OverviewProperties.DeleteBarDataPreservesValid | vnpy_arctic/arctic_database.py:276-286 | A purge keeps the store invariant. |
| OverviewProperties.SaveThenDeletePurges | vnpy_arctic/arctic_database.py:276-288 | Deleting a table's bars right after saving them leaves the store as before minus that table's record. On a table that had no record, the delete undoes the save exactly. |
| OverviewProperties.SaveTickDataLeavesNoOverview | vnpy_arctic/arctic_database.py:155-162 | A non-empty tick save succeeds. When the first tick's symbol and exchange contain no `_`, in a valid store the tick table it writes (named after `ticks[0]`) has no bar overview afterwards. |
| OverviewProperties.DeleteTickDataLeavesNoOverview | vnpy_arctic/arctic_database.py:290-306 | A tick delete returns the count read before deletion. When the symbol and exchange contain no `_`, in a valid store the tick table it deletes (`symbol_exchange`) has no bar overview afterwards. |
| OverviewProperties.TickTableCollision | vnpy_arctic/arctic_database.py:155-157 | Without that condition a tick table can share its name with a bar table: ticks for `a`/`b_1m` are written to `a_b_1m`, where a valid store holds the overview of the `a`/`b`/`1m` bars. |
| OverviewProperties.TickTableHasNoOverview | vnpy_arctic/arctic_database.py:155-157 | In a valid store, a tick table's name (`symbol_exchange`, with no `_` in either part) never carries a bar overview, so tick saves and deletes leave no stale record. |
| OverviewProperties.SaveAllFrame | vnpy_arctic/arctic_database.py:100-104 | A run of saves to one table leaves every other table's record, and its presence or absence, as it was. |
| OverviewProperties.SaveAllCount | vnpy_arctic/arctic_database.py:78-98 | After a run of saves to one table, its count is the last reported row count, not a sum over the batches. |
| OverviewProperties.SaveAllSpan | vnpy_arctic/arctic_database.py:95-97 | After a run of saves to one table, the start is the least of the prior start and every batch start. The end is the greatest of the prior end and every batch end. |
| OverviewProperties.SaveOrderIndependent | vnpy_arctic/arctic_database.py:96-97 | Saving the same batches to one table in any order records the same start and end. |
| OverviewProperties.SortedBatchCovered | vnpy_arctic/arctic_database.py:83-84 | For a time-sorted batch, every bar lies within the recorded range. |
| OverviewProperties.UnsortedBatchEscapesRange | vnpy_arctic/arctic_database.py:83-84 | Bars at 100, 105, 103 are recorded as 100..103, so the bar at 105 lies outside the range. |
| OverviewProperties.SaveSaveDeleteScenario | vnpy_arctic/arctic_database.py:78-98 | Saving 100, 103, 105 (count 3) gives 100..105/3. Then saving 90, 110 (count 5) gives 90..110/5. Then a delete returns 5 and leaves an empty store. |

## Left out

- The Arctic connection, library initialisation and `SETTINGS` lookup (lines 24-44): external client and configuration.
- DataFrame construction and the field-by-field bar and tick marshalling (lines 49-65, 111-152): data shuffling through pandas. Prices and volumes are floating point.
- `load_bar_data` and `load_tick_data` (lines 164-266): range reads through the chunk store and reconstruction of records. They touch no overview.
- The chunk store's `update`, `read`, `delete` and `get_info`: chunking, `DateRange` queries and upsert deduplication belong to the storage library. The reported row count is an input.
- ArcticDatabase.SaveBarData: does not model the chunk-store write at lines 73-75 or a failure of it. Only its reported row count enters.
- ArcticDatabase.DeleteBarData: does not model what `get_info` does for a table that does not exist. That behaviour is the storage library's. The count is an input, and a purge of an absent record changes nothing.
- ArcticDatabase.GetBarOverview: `Exchange(...)`/`Interval(...)` conversion of listed values is not modelled. Values stay opaque strings. The listing order is left open.
- `convert_tz`/`tz_localize` timezone handling, and the `start_time=datetime.now(...)` version stamp of the metadata `append`: clocks and timezones.
- Concurrent writers to the same table: the adapter does no locking. The model is sequential.
