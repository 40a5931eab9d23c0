/** The bookkeeping invariant of a ProxyConnection session and what holds over any
    sequence of calls on it: the registry only holds live, prepared cursors, each
    table's columns are fetched at most once, and a registered cursor stays
    registered until it is destroyed. */
module ProxySession {
  import opened Wrappers
  import opened ProxyConnection
  import MergeDiff

  /** What the cache holds for a table once quote_value has looked at it: nothing
      when fetching its columns raised, and its columns indexed by name otherwise. */
  function CachedEntry(p: Proxy, t: Table): map<ColumnName, Column>
  {
    if t in p.failedFetches || t !in p.catalogue then map[] else ColumnIndex(p.catalogue[t])
  }

  /** The session's bookkeeping is consistent:
      - destroyed cursors are cursors of this session;
      - registered cursors are cursors of this session whose prepare_fetch
        succeeded and which have not been destroyed;
      - `connection.columns` was called once per cached table and for no other;
      - a cached table's entry is empty when that call raised, which it always does
        for a table the connection does not know, and indexes its columns otherwise. */
  predicate Valid(p: Proxy)
  {
    && (forall id | id in p.destroyed :: id < |p.created|)
    && (forall id | id in Registry(p) :: id < |p.created| && id !in p.destroyed && p.created[id].prepared.Some?)
    && NoDuplicates(p.columnFetches)
    && Cache(p).Keys == (set t | t in p.columnFetches)
    && p.failedFetches <= Cache(p).Keys
    && (forall t | t in Cache(p) && t !in p.catalogue :: t in p.failedFetches)
    && (forall t | t in Cache(p) :: Cache(p)[t] == CachedEntry(p, t))
  }

  /** One call on the session, with the outcome of the connection or cursor call it
      makes where that can raise. */
  datatype Op =
    | AccessCursors
    | Save(id: CursorId)
    | Create(cursorClass: CursorClass, table: Table, options: Options, prepareFails: bool)
    | DestroyOne(id: CursorId)
    | DestroyAll(disconnectFails: bool)
    | Quote(table: Table, column: ColumnName, value: MergeDiff.Value, columnsFails: bool)

  /** The calls a caller may make: destroy_cursor and save_cursor take cursors of
      this session, and only a prepared cursor that is still live is saved. */
  predicate Allowed(p: Proxy, op: Op)
  {
    match op
    case Save(id) => id < |p.created| && id !in p.destroyed && p.created[id].prepared.Some?
    case DestroyOne(id) => id < |p.created|
    case _ => true
  }

  /** The session after one call. */
  function Apply(p: Proxy, op: Op): (q: Proxy)
    requires Allowed(p, op)
    ensures |p.created| <= |q.created| && q.created[..|p.created|] == p.created
    ensures q.catalogue == p.catalogue
  {
    match op
    case AccessCursors => Cursors(p).state
    case Save(id) => SaveCursor(p, id)
    case Create(cursorClass, table, options, prepareFails) => CreateCursor(p, cursorClass, table, options, prepareFails).state
    case DestroyOne(id) => DestroyCursor(p, id)
    case DestroyAll(disconnectFails) => Destroy(p, disconnectFails).state
    case Quote(table, column, value, columnsFails) => QuoteValue(p, table, column, value, columnsFails).state
  }

  /** Every call of `ops`, made in order, is allowed where it is made. */
  predicate Session(p: Proxy, ops: seq<Op>)
    decreases |ops|
  {
    ops == [] || (Allowed(p, ops[0]) && Session(Apply(p, ops[0]), ops[1..]))
  }

  /** The session after the calls `ops`. */
  function Replay(p: Proxy, ops: seq<Op>): Proxy
    requires Session(p, ops)
    decreases |ops|
  {
    if ops == [] then p else Replay(Apply(p, ops[0]), ops[1..])
  }

  /** A new session is consistent. */
  lemma ConnectValid(catalogue: map<Table, seq<Column>>)
    ensures Valid(Connect(catalogue))
  {
  }

  /** Every allowed call keeps the session consistent. */
  lemma ApplyKeepsValid(p: Proxy, op: Op)
    requires Valid(p) && Allowed(p, op)
    ensures Valid(Apply(p, op))
  {
    match op {
      case Create(cursorClass, table, options, prepareFails) =>
        CreateCursorKeepsValid(p, cursorClass, table, options, prepareFails);
      case Quote(table, column, value, columnsFails) =>
        QuoteValueKeepsValid(p, table, column, value, columnsFails);
      case _ =>
    }
  }

  /** create_cursor keeps the session consistent: the cursor it registers is new. */
  lemma CreateCursorKeepsValid(p: Proxy, cursorClass: CursorClass, table: Table, options: Options, prepareFails: bool)
    requires Valid(p)
    ensures Valid(CreateCursor(p, cursorClass, table, options, prepareFails).state)
  {
    var q := CreateCursor(p, cursorClass, table, options, prepareFails).state;
    assert |p.created| !in p.destroyed;
    assert forall id | id in Registry(q) :: id == |p.created| || id in Registry(p);
  }

  /** quote_value keeps the session consistent: it fetches only for a table not yet
      cached, and caches that table with what the fetch gave. */
  lemma QuoteValueKeepsValid(p: Proxy, table: Table, column: ColumnName, value: MergeDiff.Value, columnsFails: bool)
    requires Valid(p)
    ensures Valid(QuoteValue(p, table, column, value, columnsFails).state)
  {
    if table !in Cache(p) {
      var failed := columnsFails || table !in p.catalogue;
      var entry := if failed then map[] else ColumnIndex(p.catalogue[table]);
      FetchKeepsValid(p, table, entry, failed);
      assert QuoteValue(p, table, column, value, columnsFails).state
          == p.(tableColumns := Some(Cache(p)[table := entry]), columnFetches := p.columnFetches + [table],
                failedFetches := if failed then p.failedFetches + {table} else p.failedFetches);
    }
  }

  /** Caching a newly fetched table with what the fetch gave, and recording the fetch,
      keeps the session consistent. */
  lemma FetchKeepsValid(p: Proxy, table: Table, entry: map<ColumnName, Column>, failed: bool)
    requires Valid(p) && table !in Cache(p)
    requires table !in p.catalogue ==> failed
    requires entry == if failed then map[] else ColumnIndex(p.catalogue[table])
    ensures Valid(p.(tableColumns := Some(Cache(p)[table := entry]), columnFetches := p.columnFetches + [table],
                     failedFetches := if failed then p.failedFetches + {table} else p.failedFetches))
  {
    var q := p.(tableColumns := Some(Cache(p)[table := entry]), columnFetches := p.columnFetches + [table],
                failedFetches := if failed then p.failedFetches + {table} else p.failedFetches);
    assert NoDuplicates(q.columnFetches);
    assert (set t | t in q.columnFetches) == (set t | t in p.columnFetches) + {table};
    forall t | t in Cache(q)
      ensures Cache(q)[t] == CachedEntry(q, t)
      ensures t !in q.catalogue ==> t in q.failedFetches
    {
      if t != table {
        assert t in q.failedFetches <==> t in p.failedFetches;
      }
    }
  }

  /** Any sequence of allowed calls keeps the session consistent; in particular no
      table's columns are ever fetched twice. */
  lemma {:induction false} ReplayKeepsValid(p: Proxy, ops: seq<Op>)
    requires Valid(p) && Session(p, ops)
    ensures Valid(Replay(p, ops))
    ensures NoDuplicates(Replay(p, ops).columnFetches)
    decreases |ops|
  {
    if ops != [] {
      ApplyKeepsValid(p, ops[0]);
      ReplayKeepsValid(Apply(p, ops[0]), ops[1..]);
    }
  }

  /** The calls that take cursor `id` out of the registry. */
  predicate Releases(op: Op, id: CursorId)
  {
    op == DestroyOne(id) || op == DestroyAll(false)
  }

  /** A registered cursor stays registered, live and the same cursor object across
      every call that neither destroys it nor destroys the session. */
  lemma {:induction false} RegisteredUntilReleased(p: Proxy, ops: seq<Op>, id: CursorId)
    requires Valid(p) && Session(p, ops)
    requires id in Registry(p)
    requires forall i | 0 <= i < |ops| :: !Releases(ops[i], id)
    ensures var q := Replay(p, ops);
            && id in Registry(q)
            && id !in q.destroyed
            && id < |q.created| && q.created[id] == p.created[id]
    decreases |ops|
  {
    if ops != [] {
      var p' := Apply(p, ops[0]);
      assert !Releases(ops[0], id);
      ApplyKeepsValid(p, ops[0]);
      assert id in Registry(p');
      assert p'.created[id] == p'.created[..|p.created|][id];
      RegisteredUntilReleased(p', ops[1..], id);
    }
  }

  /** save_cursor is idempotent: saving a cursor twice, or saving one already
      registered, leaves the same single registry entry. */
  lemma SaveCursorIdempotent(p: Proxy, id: CursorId)
    ensures SaveCursor(SaveCursor(p, id), id) == SaveCursor(p, id)
    ensures p.registry.Some? && id in Registry(p) ==> SaveCursor(p, id) == p
  {
    assert Registry(SaveCursor(p, id)) + {id} == Registry(p) + {id};
    if p.registry.Some? && id in Registry(p) {
      assert Registry(p) + {id} == Registry(p);
    }
  }

  /** The registry is empty on first access, and accessing it again changes nothing. */
  lemma CursorsStartEmpty(catalogue: map<Table, seq<Column>>)
    ensures Cursors(Connect(catalogue)).result == {}
    ensures var s := Cursors(Connect(catalogue)).state; Cursors(s) == Outcome({}, s)
  {
  }

  /** A cursor create_cursor returns is new: it was neither registered nor
      destroyed before, and it is the only cursor added to the registry. */
  lemma CreatedCursorIsFresh(p: Proxy, cursorClass: CursorClass, table: Table, options: Options)
    requires Valid(p)
    ensures var r := CreateCursor(p, cursorClass, table, options, false);
            && r.result.Success?
            && r.result.value !in Registry(p) && r.result.value !in p.destroyed
            && Registry(r.state) - Registry(p) == {r.result.value}
  {
  }

  /** destroy on a consistent session destroys every live cursor and leaves none
      registered, and the session stays consistent. */
  lemma DestroyReleasesEverything(p: Proxy)
    requires Valid(p)
    ensures var q := Destroy(p, false).state;
            && Valid(q)
            && Registry(q) == {}
            && (forall id | id in Registry(p) :: id in q.destroyed)
            && (forall id | id in q.destroyed - p.destroyed :: id in Registry(p))
  {
    ApplyKeepsValid(p, DestroyAll(false));
  }

  /** Once quote_value has been called for a table, later calls for it neither
      fetch columns again nor change the session, and never fail, even when the
      first fetch raised. */
  lemma QuoteValueFetchesOnce(p: Proxy, table: Table, column: ColumnName, value: MergeDiff.Value, columnsFails: bool,
                              column': ColumnName, value': MergeDiff.Value, columnsFails': bool)
    ensures var q := QuoteValue(p, table, column, value, columnsFails).state;
            var r := QuoteValue(q, table, column', value', columnsFails');
            && r.state == q
            && r.result == Success(Quoted(value', Lookup(Cache(q)[table], column')))
  {
  }

  /** On a consistent session, quote_value for a table the connection knows, and
      whose columns were fetched successfully or are fetched successfully now,
      quotes with the last of the table's columns carrying the name asked for, and
      with no column object when the table has none of that name. */
  lemma QuoteValueUsesCatalogueColumn(p: Proxy, table: Table, column: ColumnName, value: MergeDiff.Value, columnsFails: bool)
    requires Valid(p) && table in p.catalogue && table !in p.failedFetches
    requires table in Cache(p) || !columnsFails
    ensures var r := QuoteValue(p, table, column, value, columnsFails);
            var cols := p.catalogue[table];
            && r.result.Success?
            && r.result.value.value == value
            && (r.result.value.column.None? <==> forall c | c in cols :: c.name != column)
            && (r.result.value.column.Some? ==>
                  exists i | 0 <= i < |cols| :: LastNamed(cols, column, i) && r.result.value.column.value == cols[i])
  {
    var r := QuoteValue(p, table, column, value, columnsFails);
    var cols := p.catalogue[table];
    var entry := ColumnIndex(cols);
    assert Cache(r.state)[table] == entry;
    if column in entry {
      var i :| 0 <= i < |cols| && cols[i] == entry[column] && LastNamed(cols, column, i);
      assert r.result.value.column.value == cols[i];
    } else {
      assert forall c | c in cols :: c.name in entry;
    }
  }

  /** A first fetch that raises poisons the table for the rest of the session: the
      session stays consistent, and from then on every quote_value for the table
      succeeds without fetching and quotes with no column object, even for a column
      the table has. */
  lemma FailedFetchPoisonsTable(p: Proxy, table: Table, column: ColumnName, value: MergeDiff.Value, ops: seq<Op>,
                                column': ColumnName, value': MergeDiff.Value, columnsFails': bool)
    requires Valid(p) && table !in Cache(p)
    requires Session(QuoteValue(p, table, column, value, true).state, ops)
    ensures var q := QuoteValue(p, table, column, value, true);
            var s := Replay(q.state, ops);
            && q.result == Failure(ColumnsUnavailable)
            && Valid(s)
            && QuoteValue(s, table, column', value', columnsFails') == Outcome(Success(Quoted(value', None)), s)
  {
    var q := QuoteValue(p, table, column, value, true);
    ApplyKeepsValid(p, Quote(table, column, value, true));
    ReplayKeepsValid(q.state, ops);
    PoisonPersists(q.state, ops, table);
  }

  /** A table whose fetch raised stays marked so across any calls. */
  lemma {:induction false} PoisonPersists(p: Proxy, ops: seq<Op>, table: Table)
    requires Session(p, ops) && table in p.failedFetches
    ensures table in Replay(p, ops).failedFetches
    decreases |ops|
  {
    if ops != [] {
      PoisonPersists(Apply(p, ops[0]), ops[1..], table);
    }
  }
}
