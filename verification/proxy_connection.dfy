/** ProxyConnection: the session that owns one database connection, keeps a
    registry of the cursors created on it, and caches column objects per table.
    The session is an immutable value; each operation returns the session after
    it. Cursor objects live in an arena (`created`) and are named by their index. */
module ProxyConnection {
  import opened Wrappers
  import MergeDiff

  /** A cursor object, named by the position at which the session created it. */
  type CursorId = nat
  type Table = string
  type ColumnName = string
  type Options = map<string, string>

  /** The cursor classes create_cursor is handed. */
  datatype CursorClass = RowCursor | BlockCursor

  /** A column object as the connection describes it. */
  datatype Column = Column(name: ColumnName, sqlType: string)

  /** A cursor object: its class, its table, and the options prepare_fetch was
      given, or None when prepare_fetch raised. */
  datatype ProxyCursor = ProxyCursor(cursorClass: CursorClass, table: Table, prepared: Option<Options>)

  /** The faults of the connection calls the session makes. */
  datatype ProxyError = ColumnsUnavailable | PrepareFailed | DisconnectFailed

  /** The arguments `connection.quote` is called with: the value and the column
      object found in the cache, or None where the cache has no such column. */
  datatype Quoted = Quoted(value: MergeDiff.Value, column: Option<Column>)

  /** The state of one session.
      - catalogue: the columns the connection reports per table; asking for a table
        it lacks raises;
      - created: every cursor object created on this session, by id;
      - registry: `@cursors`, nil until first accessed; the hash maps each cursor to
        itself, so its key set is the whole content;
      - tableColumns: `@table_columns`, table => column name => column;
      - destroyed: the cursors whose `destroy` has been called;
      - disconnected: whether `disconnect!` has been called;
      - columnFetches: the tables `connection.columns` has been called for, in order;
      - failedFetches: the tables for which that call raised. */
  datatype Proxy = Proxy(
    catalogue: map<Table, seq<Column>>,
    created: seq<ProxyCursor>,
    registry: Option<set<CursorId>>,
    tableColumns: Option<map<Table, map<ColumnName, Column>>>,
    destroyed: set<CursorId>,
    disconnected: bool,
    columnFetches: seq<Table>,
    failedFetches: set<Table>)

  /** What an operation returns, with the session after it. */
  datatype Outcome<T> = Outcome(result: T, state: Proxy)

  /** The registry's cursors; an uninitialised registry holds none. */
  function Registry(p: Proxy): set<CursorId>
  {
    if p.registry.Some? then p.registry.value else {}
  }

  /** The column cache; an uninitialised cache holds no table. */
  function Cache(p: Proxy): map<Table, map<ColumnName, Column>>
  {
    if p.tableColumns.Some? then p.tableColumns.value else map[]
  }

  /** A hash lookup: the value under `k`, or nil. */
  function Lookup<K, V>(m: map<K, V>, k: K): (v: Option<V>)
    ensures v.Some? <==> k in m
    ensures v.Some? ==> v.value == m[k]
  {
    if k in m then Some(m[k]) else None
  }

  /** No table occurs twice. */
  predicate NoDuplicates(s: seq<Table>)
  {
    forall i, j | 0 <= i < j < |s| :: s[i] != s[j]
  }

  /** A session just established over a connection whose tables have the columns
      in `catalogue`: no cursor, neither the registry nor the cache initialised. */
  function Connect(catalogue: map<Table, seq<Column>>): (p: Proxy)
    ensures p.catalogue == catalogue
    ensures p.registry.None? && p.tableColumns.None?
    ensures p.created == [] && Registry(p) == {} && Cache(p) == map[]
    ensures p.destroyed == {} && !p.disconnected && p.columnFetches == [] && p.failedFetches == {}
  {
    Proxy(catalogue, [], None, None, {}, false, [], {})
  }

  /** The `cursors` accessor: the registry, created empty on first access. */
  function Cursors(p: Proxy): (r: Outcome<set<CursorId>>)
    ensures p.registry.None? ==> r.result == {}
    ensures p.registry.Some? ==> r.result == p.registry.value && r.state == p
    ensures r.state.registry == Some(r.result)
    ensures r.state == p.(registry := r.state.registry)
  {
    Outcome(Registry(p), p.(registry := Some(Registry(p))))
  }

  /** save_cursor: registers `id`, keeping every cursor registered before. */
  function SaveCursor(p: Proxy, id: CursorId): (q: Proxy)
    ensures q.registry.Some? && id in Registry(q)
    ensures Registry(q) - {id} == Registry(p) - {id}
    ensures q == p.(registry := q.registry)
  {
    p.(registry := Some(Registry(p) + {id}))
  }

  /** create_cursor: creates a cursor object of `cursorClass` over `table`, runs
      prepare_fetch with `options` (which raises when `prepareFails`), and only
      then registers the cursor and returns it. A cursor whose prepare_fetch
      raised stays created but unregistered. */
  function CreateCursor(p: Proxy, cursorClass: CursorClass, table: Table, options: Options, prepareFails: bool)
    : (r: Outcome<Result<CursorId, ProxyError>>)
    ensures |r.state.created| == |p.created| + 1 && r.state.created[..|p.created|] == p.created
    ensures r.state.created[|p.created|].cursorClass == cursorClass
    ensures r.state.created[|p.created|].table == table
    ensures r.result.Success? <==> !prepareFails
    ensures r.result.Failure? ==> r.result.error == PrepareFailed && r.state.registry == p.registry
    ensures r.result.Failure? ==> r.state.created[|p.created|].prepared.None?
    ensures r.result.Success? ==>
      && r.result.value == |p.created|
      && r.state.created[r.result.value].prepared == Some(options)
      && Registry(r.state) == Registry(p) + {r.result.value}
    ensures r.state.catalogue == p.catalogue && r.state.tableColumns == p.tableColumns
    ensures r.state.destroyed == p.destroyed && r.state.disconnected == p.disconnected
    ensures r.state.columnFetches == p.columnFetches && r.state.failedFetches == p.failedFetches
  {
    var id := |p.created|;
    if prepareFails then
      Outcome(Failure(PrepareFailed), p.(created := p.created + [ProxyCursor(cursorClass, table, None)]))
    else
      var q := p.(created := p.created + [ProxyCursor(cursorClass, table, Some(options))]);
      Outcome(Success(id), SaveCursor(q, id))
  }

  /** destroy_cursor: destroys the cursor and deletes it from the registry. Any
      cursor created on this session may be passed, registered or not. */
  function DestroyCursor(p: Proxy, id: CursorId): (q: Proxy)
    requires id < |p.created|
    ensures q.destroyed == p.destroyed + {id}
    ensures q.registry.Some? && id !in Registry(q)
    ensures Registry(q) == Registry(p) - {id}
    ensures q.created == p.created && q.catalogue == p.catalogue && q.tableColumns == p.tableColumns
    ensures q.disconnected == p.disconnected && q.columnFetches == p.columnFetches
    ensures q.failedFetches == p.failedFetches
  {
    p.(destroyed := p.destroyed + {id}, registry := Some(Registry(p) - {id}))
  }

  /** destroy: disconnects (which raises when `disconnectFails`, before any cursor
      is touched), then destroys every registered cursor and clears the registry.
      The column cache is kept. */
  function Destroy(p: Proxy, disconnectFails: bool): (r: Outcome<Result<(), ProxyError>>)
    ensures r.result.Failure? <==> disconnectFails
    ensures disconnectFails ==> r.result.error == DisconnectFailed && r.state == p
    ensures !disconnectFails ==>
      && r.state.disconnected
      && r.state.destroyed == p.destroyed + Registry(p)
      && r.state.registry == Some({})
      && r.state.created == p.created && r.state.catalogue == p.catalogue
      && r.state.tableColumns == p.tableColumns && r.state.columnFetches == p.columnFetches
      && r.state.failedFetches == p.failedFetches
  {
    if disconnectFails then Outcome(Failure(DisconnectFailed), p)
    else Outcome(Success(()), p.(disconnected := true, destroyed := p.destroyed + Registry(p), registry := Some({})))
  }

  /** The columns of a table indexed by name, built in list order, so that a later
      column with the same name overwrites an earlier one. */
  function ColumnIndex(cols: seq<Column>): (m: map<ColumnName, Column>)
    ensures m.Keys == set c | c in cols :: c.name
    ensures forall n | n in m :: exists i | 0 <= i < |cols| :: cols[i] == m[n] && LastNamed(cols, n, i)
    decreases |cols|
  {
    if cols == [] then map[]
    else
      var init := cols[..|cols| - 1];
      var last := cols[|cols| - 1];
      var m := ColumnIndex(init);
      assert cols == init + [last];
      ColumnIndexExtends(init, last, m);
      m[last.name := last]
  }

  /** Adding `last` to the index of `init` gives the index of `init + [last]`. */
  lemma ColumnIndexExtends(init: seq<Column>, last: Column, m: map<ColumnName, Column>)
    requires m.Keys == set c | c in init :: c.name
    requires forall n | n in m :: exists i | 0 <= i < |init| :: init[i] == m[n] && LastNamed(init, n, i)
    ensures var cols := init + [last];
            var m' := m[last.name := last];
            && m'.Keys == (set c | c in cols :: c.name)
            && forall n | n in m' :: exists i | 0 <= i < |cols| :: cols[i] == m'[n] && LastNamed(cols, n, i)
  {
    var cols := init + [last];
    var m' := m[last.name := last];
    forall n | n in m'
      ensures exists i | 0 <= i < |cols| :: cols[i] == m'[n] && LastNamed(cols, n, i)
    {
      if n == last.name {
        assert cols[|init|] == m'[n] && LastNamed(cols, n, |init|);
      } else {
        var i :| 0 <= i < |init| && init[i] == m[n] && LastNamed(init, n, i);
        assert cols[i] == m'[n] && LastNamed(cols, n, i);
      }
    }
  }

  /** `i` is the last position in `cols` of a column named `n`. */
  predicate LastNamed(cols: seq<Column>, n: ColumnName, i: int)
  {
    && 0 <= i < |cols|
    && cols[i].name == n
    && forall j | i < j < |cols| :: cols[j].name != n
  }

  /** quote_value: initialises the cache if need be; on the first call for `table`
      stores an empty entry for it and then fetches its columns from the
      connection, indexing them by name; and quotes `value` with the cached column
      object named `column`. The fetch raises when `columnsFails` (a connection
      fault) or when the connection does not know the table; the empty entry then
      stays behind, and later calls find the table cached. */
  function QuoteValue(p: Proxy, table: Table, column: ColumnName, value: MergeDiff.Value, columnsFails: bool)
    : (r: Outcome<Result<Quoted, ProxyError>>)
    ensures r.state.tableColumns.Some? && table in Cache(r.state)
    ensures Cache(r.state) - {table} == Cache(p) - {table}
    ensures table in Cache(p) ==> r.state == p.(tableColumns := Some(Cache(p)))
    ensures table !in Cache(p) ==> r.state.columnFetches == p.columnFetches + [table]
    ensures table !in Cache(p) && !columnsFails && table in p.catalogue ==>
      Cache(r.state)[table] == ColumnIndex(p.catalogue[table])
    ensures r.result.Failure? <==> table !in Cache(p) && (columnsFails || table !in p.catalogue)
    ensures r.result.Failure? ==>
      && r.result.error == ColumnsUnavailable
      && Cache(r.state)[table] == map[]
      && r.state.failedFetches == p.failedFetches + {table}
    ensures r.result.Success? ==>
      && r.result.value == Quoted(value, Lookup(Cache(r.state)[table], column))
      && r.state.failedFetches == p.failedFetches
    ensures r.state.created == p.created && r.state.registry == p.registry && r.state.catalogue == p.catalogue
    ensures r.state.destroyed == p.destroyed && r.state.disconnected == p.disconnected
  {
    var cache := Cache(p);
    if table in cache then
      Outcome(Success(Quoted(value, Lookup(cache[table], column))), p.(tableColumns := Some(cache)))
    else
      var fetching := p.(tableColumns := Some(cache[table := map[]]), columnFetches := p.columnFetches + [table]);
      if columnsFails || table !in p.catalogue then
        Outcome(Failure(ColumnsUnavailable), fetching.(failedFetches := p.failedFetches + {table}))
      else
        var entry := ColumnIndex(p.catalogue[table]);
        Outcome(Success(Quoted(value, Lookup(entry, column))), fetching.(tableColumns := Some(cache[table := entry])))
  }
}
