# rubyrep table scan and proxy session, in Dafny

This project models two pieces of rubyrep, a database replication tool.

**The direct table scan** (`DirectTableScan#run`) compares two tables. It reads both through type-casting cursors, each sorted by primary key. It walks the two row streams in lockstep with at most one pending row per side. It hands every difference to its block:

- `:left` for a row only the left table has;
- `:right` for a row only the right table has;
- `:conflict` for two rows with the same key but different contents.

Its `ensure` clause clears every cursor it created. `construct_query` builds the select statement each cursor runs.

**The proxy connection** (`ProxyConnection`) owns one database connection. It keeps a registry of the cursors created on it, so that they are not reclaimed while only remote callers reference them. It caches every table's column objects for `quote_value`.

## Structure

- `wrappers.dfy`: `Option` and `Result`.
- `key_order.dfy` (`KeyOrder`): primary-key tuples as `seq<int>`, the lexicographic comparison `rank_rows` ranks rows by, and its laws.
- `merge_diff.dfy` (`MergeDiff`): rows, differences, `Rank`, and the merge as a pure function.
  - `Step` is one loop iteration on the two remaining streams.
  - `Pairings` is all iterations.
  - `Scan` is the differences they yield.
- `merge_diff_lemmas.dfy` (`MergeDiffLemmas`): the properties of the merge. These are completeness of each kind of difference, every row consumed once, the iteration bound, key order, no duplicates, soundness, and empty output exactly for identical inputs.
- `direct_table_scan.dfy` (`DirectTableScan`): `construct_query`, and `run` as a method.
  - The method mirrors the Ruby loop: the `||=` refill of each slot, the rank, the three cases and the `ensure` cleanup.
  - It is proved to yield exactly `Scan` of the two result sets.
- `proxy_connection.dfy` (`ProxyConnection`): the session as an immutable value. Each operation returns the session after it. Cursor objects live in an arena and are named by index.
- `proxy_session.dfy` (`ProxySession`): the session's bookkeeping invariant. It is kept by every operation and by any sequence of calls to them. It also covers what holds across calls: the registry protects a cursor until it is destroyed, and columns are fetched once per table.

Faults of the calls into the cursor classes and the database connection are parameters. This covers:

- opening a cursor;
- the loop raising partway through the scan: at its guard, including the final evaluation of the guard; in the refill of the left slot, with the left cursor not moved; in the refill of the right slot, after the left slot was refilled; or in the block;
- `prepare_fetch` raising;
- `disconnect!` raising;
- `connection.columns` raising for a table, whether from a connection fault or for a table the connection does not know.

`run` is deterministic: for given inputs, `Run`'s contract fixes the differences, the iteration count and the cursors' final state, whether it completes or raises. After a raise, each cursor holds the rows the completed iterations did not consume, less the row held pending on its side. When the right refill raises, the left slot has already taken its row. Running the scan twice on the same tables yields the same differences.

## Model

| member | source | states |
|---|---|---|
| `MergeDiff.Rank` | lib/rubyrep/direct_table_scan.rb:42 | A nil left row ranks +1 and a nil right row ranks -1. Otherwise the rank is 0 exactly for equal keys, and -1 or +1 as the left or the right key sorts first. |
| `MergeDiff.Step` | lib/rubyrep/direct_table_scan.rb:39-55 | One iteration consumes the rows its pairing shows from the front of each stream and nothing else, and strictly shrinks what remains. |
| `DirectTableScan.Iterate` | lib/rubyrep/direct_table_scan.rb:38-55 | The literal loop body (refill the empty slots, rank, yield, clear slots) performs exactly one merge step. It yields what that step yields, and leaves the remaining rows that step leaves. Each cursor moves forward by at most one row. A row stays pending on a side exactly when the step took only the other side's row and this side has rows left. |
| `DirectTableScan.MergeLoop` | lib/rubyrep/direct_table_scan.rb:36-57 | Left to finish, the loop yields exactly `Scan`, in one iteration per pairing, and reads both cursors to the end. Raising as it is about to start iteration n, it has yielded what the first n iterations yield. Each cursor then holds what those iterations left, less its pending row. This includes n one past the last iteration, where the final guard evaluation raises. When the right refill of iteration n raises, the left cursor has also handed its next row to an empty left slot. |
| `DirectTableScan.Run` | lib/rubyrep/direct_table_scan.rb:32-60 | `run` yields exactly `Scan` of the two result sets, in at most as many iterations as the two result sets have rows. Cut short by a fault, it raises, having yielded the prefix so far. This includes a fault at the final guard evaluation. After a raise in the loop, each cursor holds what the completed iterations left of its result set, less its pending row. When the right refill raises, the left slot has been refilled first. After the right cursor fails to open, the left cursor is still unread. On every path each created cursor is cleared exactly once and an uncreated one stays nil. |
| `DirectTableScan.ConstructQuery` | lib/rubyrep/direct_table_scan.rb:64-66 | The query names the target table, which can be parsed back out. The left table's column list precedes the name and the primary-key order follows it. |
| `DirectTableScan.LeftAndRightQueriesDifferOnlyInTable` | lib/rubyrep/direct_table_scan.rb:63-66 | The two cursors' queries share the column list and the order-by clause, and they are equal exactly when the table names are. |
| `MergeDiffLemmas.PairingsConsumeEachRowOnce` | lib/rubyrep/direct_table_scan.rb:37-41 | The rows the iterations consume, side by side, are exactly the left and right streams in order. No row is skipped or fetched twice. |
| `MergeDiffLemmas.PairingsCount` | lib/rubyrep/direct_table_scan.rb:37-57 | The loop terminates after at least as many iterations as either stream has rows and at most as many as both have together. |
| `MergeDiffLemmas.LeftOnlyComplete` | lib/rubyrep/direct_table_scan.rb:43-46 | For key-sorted streams with unique keys, `:left` is yielded for row x exactly when x is a left row whose key no right row has. |
| `MergeDiffLemmas.RightOnlyComplete` | lib/rubyrep/direct_table_scan.rb:47-49 | The mirror image for `:right`. |
| `MergeDiffLemmas.ConflictComplete` | lib/rubyrep/direct_table_scan.rb:50-54 | `:conflict` is yielded for (x, y) exactly when x is a left row and y a right row with the same key and x differs from y. Equal matched rows yield nothing. |
| `MergeDiffLemmas.ScanYieldsEachDifferenceOnce` | lib/rubyrep/direct_table_scan.rb:42-55 | For streams with unique keys no difference is yielded twice. |
| `MergeDiffLemmas.ScanFollowsKeyOrder` | lib/rubyrep/direct_table_scan.rb:42-55 | The keys of the yielded differences follow the streams' key order: non-decreasing, or increasing for unique keys. |
| `MergeDiffLemmas.ScanSound` | lib/rubyrep/direct_table_scan.rb:43-54 | Every yielded difference is justified by the streams. A lone row comes from its side; a conflict pairs a left and a right row sharing a key and differing. |
| `MergeDiffLemmas.ScanEmptyIffIdentical` | lib/rubyrep/direct_table_scan.rb:32-57 | The scan yields nothing exactly when the two streams are identical. |
| `KeyOrder.CompareZeroIffEqual` | lib/rubyrep/direct_table_scan.rb:42 | The key comparison reports 0 exactly for equal key tuples. |
| `KeyOrder.CompareAntisymmetric` | lib/rubyrep/direct_table_scan.rb:42 | Swapping the two key tuples negates the comparison. |
| `KeyOrder.LessEqTransitive` | lib/rubyrep/direct_table_scan.rb:42 | The order keys are ranked by is transitive. |
| `KeyOrder.CompareAtFirstDifference` | lib/rubyrep/direct_table_scan.rb:42 | Key tuples are ranked lexicographically: the first column at which they differ decides the rank. |
| `KeyOrder.ComparePrefix` | lib/rubyrep/direct_table_scan.rb:42 | A key tuple ranks before every longer tuple it is a prefix of. |
| `ProxyConnection.Connect` | lib/rubyrep/proxy_connection.rb:42-44 | A new session has no cursor, an uninitialised registry and column cache, and a live connection. |
| `ProxyConnection.Cursors` | lib/rubyrep/proxy_connection.rb:31-33 | The accessor returns the registry. It is empty on first access and installed for later accesses. |
| `ProxyConnection.SaveCursor` | lib/rubyrep/proxy_connection.rb:36-38 | Saving registers the cursor, keeps every other registration, and changes nothing else. |
| `ProxyConnection.CreateCursor` | lib/rubyrep/proxy_connection.rb:71-76 | The new cursor of the requested class and table is registered before it is returned, with all earlier registrations kept. If `prepare_fetch` raises, the cursor is created but never registered. |
| `ProxyConnection.DestroyCursor` | lib/rubyrep/proxy_connection.rb:79-82 | The cursor is marked destroyed and only it leaves the registry. |
| `ProxyConnection.Destroy` | lib/rubyrep/proxy_connection.rb:47-54 | The connection is disconnected, every registered cursor is destroyed, and the registry is left empty. If `disconnect!` raises, nothing changes. |
| `ProxyConnection.ColumnIndex` | lib/rubyrep/proxy_connection.rb:62 | The name index has the column list's names as keys. Each name maps to the last column carrying it. |
| `ProxyConnection.QuoteValue` | lib/rubyrep/proxy_connection.rb:58-65 | The first call for a table fetches its columns once and caches them by name. A fetch that raises, for a connection fault or an unknown table, fails the call, records the table as failed and leaves an empty entry. Other tables' entries are untouched, and the value is quoted with the cached column object for the column name. |
| `ProxySession.ConnectValid` | lib/rubyrep/proxy_connection.rb:42-44 | A new session satisfies the bookkeeping invariant. |
| `ProxySession.ApplyKeepsValid` | lib/rubyrep/proxy_connection.rb:31-82 | Every operation keeps the invariant. Registered cursors are live, prepared cursors of this session, and the cache holds exactly the tables whose columns were fetched, each fetched once. |
| `ProxySession.ReplayKeepsValid` | lib/rubyrep/proxy_connection.rb:31-82 | Any sequence of calls to the session's operations keeps the invariant, so no table's columns are ever fetched twice. Calls to the attribute writers are not among them. |
| `ProxySession.RegisteredUntilReleased` | lib/rubyrep/proxy_connection.rb:36-82 | A registered cursor stays registered, undestroyed and unchanged through any calls to the session's operations other than `destroy_cursor` on it or a successful `destroy`. The `cursors=` writer is not among them. |
| `ProxySession.SaveCursorIdempotent` | lib/rubyrep/proxy_connection.rb:36-38 | Saving a cursor twice, or saving one already registered, leaves a single registry entry. |
| `ProxySession.CursorsStartEmpty` | lib/rubyrep/proxy_connection.rb:31-33 | A new session's registry is empty when first accessed, and accessing it again changes nothing. |
| `ProxySession.CreatedCursorIsFresh` | lib/rubyrep/proxy_connection.rb:71-76 | The cursor `create_cursor` returns was neither registered nor destroyed before, and it is the only registration added. |
| `ProxySession.DestroyReleasesEverything` | lib/rubyrep/proxy_connection.rb:47-54 | After `destroy`, every previously registered cursor is destroyed, only those are newly destroyed, and none is registered. |
| `ProxySession.QuoteValueFetchesOnce` | lib/rubyrep/proxy_connection.rb:59-63 | After one call for a table, later calls for it never refetch, never change the session and never fail. |
| `ProxySession.QuoteValueUsesCatalogueColumn` | lib/rubyrep/proxy_connection.rb:62-64 | For a table the connection knows whose columns were, or are now, fetched successfully, the value is quoted with the last of its columns with the requested name, or with no column object when there is none. |
| `ProxySession.FailedFetchPoisonsTable` | lib/rubyrep/proxy_connection.rb:60-64 | When the first fetch for a table raises, even for a table the connection knows, every later `quote_value` for it, after any calls, succeeds without fetching and quotes with no column object. |

## Left out

- `rank_rows` (from `TableScanHelper`) is not part of this model. `MergeDiff.Rank` states it as a lexicographic comparison of integer key tuples, and assumes the loop guard keeps at least one pending row.
- `TypeCastingCursor`'s value casting is not part of this model. A cursor is the sequence of already-cast rows of its result set, and rows compare by plain equality.
- `session.left.columns` and `primary_key_names` are inputs in `ScanContext`. Actual SQL execution and dialect correctness are out of scope.
- DirectTableScan.Run: does not model the block as code. A block that raises is a `RaiseAt` fault, and the block's side effects are not modelled. A `break` out of the block, which ends `run` normally after its `ensure` clause, is not modelled.
- DirectTableScan.Run: "each created cursor is cleared exactly once" assumes `TypeCastingCursor#clear` does not raise. In the source, a `clear` on the left cursor that raises skips the `clear` of the right cursor.
- lib/rubyrep/sync_helper.rb is left out. It is thin delegation to a committer looked up by name at run time.
- DRb, and the garbage-collection protection that motivates the registry, are left out; only the registry bookkeeping is modelled.
- The ActiveRecord pass-throughs are left out: `select_one`, `column_names`, `primary_key_names`, `tables`, the transaction calls, `columns`, the `quote_*_name` wrappers, `select_cursor` and `execute`. `db_connect` in `initialize` is `Connect` over a catalogue of table columns. `connection.quote` is represented by the arguments it is called with (`Quoted`).
- `ProxyConnection.DestroyCursor` assumes `ProxyCursor#destroy` does not raise. The same holds for `ProxyConnection.Destroy`, which never raises partway through its cursors.
- ProxySession.ReplayKeepsValid: covers only calls through `cursors`, `save_cursor`, `create_cursor`, `destroy_cursor`, `destroy` and `quote_value`. The public writers `connection=`, `cursors=` and `table_columns=` (proxy_connection.rb:14, 20, 23) are not modelled as calls. Through them a caller can break the invariant, for instance `table_columns = nil` makes the next `quote_value` fetch a cached table's columns again. `save_cursor` is taken only with what `create_cursor`, its one caller in this file, passes: a live, prepared cursor of the session. Saving any other object is not covered.
- ProxySession.RegisteredUntilReleased: rests on the same set of calls as `ReplayKeepsValid`. The writer `cursors=` can unregister a live cursor, and no call of the model stands for it.
- ProxySession.QuoteValueUsesCatalogueColumn: the catalogue is fixed when the session connects, so `connection.columns` gives the same answer for a table all session. A schema change after the first fetch, where the cached column objects go stale and `quote_value` keeps using them, is not modelled. For the same reason, that `destroy` keeps the cache has no visible effect in the model.
- Concurrency: the registry is not guarded by a lock in the code, and the model is sequential.

The model follows the code where it differs from the documented design of the session:

- `destroy_cursor` accepts a cursor that is not registered; it raises no unknown-cursor error.
- Calls on a destroyed session are not refused.
- `destroy` does not invalidate the column cache.
- `quote_value` for a column the table does not have quotes with a nil column object rather than failing.
- `run` re-raises faults unwrapped after clearing its cursors.
- `quote_value` stores the empty cache entry before asking the connection for the columns. If that call raises, the empty entry remains, and later calls for the table quote without column objects and never retry the fetch (`FailedFetchPoisonsTable`).
