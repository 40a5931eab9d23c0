/** The merge-join that DirectTableScan#run performs, as a pure function of the two
    row streams: rows, differences, the ranking of two pending rows and the merge. */
module MergeDiff {
  import opened Wrappers
  import opened KeyOrder

  /** A column value after type casting into a canonical, comparable form. */
  datatype Value = Null | Int(i: int) | Text(s: string)

  /** A row as the type-casting cursor returns it: its primary-key tuple and the
      values of all its columns. Two rows are equal when both parts are. */
  datatype Row = Row(key: Key, values: seq<Value>)

  /** One difference handed to run's block: `:left` with a row found only on the
      left, `:right` with a row found only on the right, or `:conflict` with the
      left and right rows that share a key but differ. */
  datatype Diff = LeftOnly(row: Row) | RightOnly(row: Row) | Conflict(left: Row, right: Row)

  /** How one iteration of the merge loop disposed of its pending rows: a left row
      alone, a right row alone, or a left and a right row with the same key. */
  datatype Pairing = OnlyLeft(l: Row) | OnlyRight(r: Row) | Matched(l: Row, r: Row)

  /** The next row of a stream, or nil when it is exhausted. */
  function Head(rows: seq<Row>): (h: Option<Row>)
    ensures h.None? <==> rows == []
    ensures h.Some? ==> h.value == rows[0]
  {
    if rows == [] then None else Some(rows[0])
  }

  /** rank_rows of TableScanHelper as the scan relies on it: a missing left row
      ranks the right row first (+1), a missing right row ranks the left row
      first (-1), and two rows rank by the lexicographic order of their keys. */
  function Rank(left: Option<Row>, right: Option<Row>): (rank: int)
    requires left.Some? || right.Some?
    ensures rank == -1 || rank == 0 || rank == 1
    ensures left.None? ==> rank == 1
    ensures right.None? ==> rank == -1
    ensures left.Some? && right.Some? ==> (rank == 0 <==> left.value.key == right.value.key)
    ensures left.Some? && right.Some? ==> (rank == -1 <==> Less(left.value.key, right.value.key))
    ensures left.Some? && right.Some? ==> (rank == 1 <==> Less(right.value.key, left.value.key))
  {
    if left.None? then 1
    else if right.None? then -1
    else
      CompareZeroIffEqual(left.value.key, right.value.key);
      CompareAntisymmetric(left.value.key, right.value.key);
      Compare(left.value.key, right.value.key)
  }

  /** The rows of one side that a sequence of pairings consumed, in order. */
  function Lefts(ps: seq<Pairing>): seq<Row>
  {
    if ps == [] then []
    else
      match ps[0]
      case OnlyLeft(l) => [l] + Lefts(ps[1..])
      case OnlyRight(_) => Lefts(ps[1..])
      case Matched(l, _) => [l] + Lefts(ps[1..])
  }

  /** See `Lefts`. */
  function Rights(ps: seq<Pairing>): seq<Row>
  {
    if ps == [] then []
    else
      match ps[0]
      case OnlyLeft(_) => Rights(ps[1..])
      case OnlyRight(r) => [r] + Rights(ps[1..])
      case Matched(_, r) => [r] + Rights(ps[1..])
  }

  /** One iteration of the merge on the heads of the two remaining streams: the
      pairing it makes and the streams that remain afterwards. */
  function Step(left: seq<Row>, right: seq<Row>): (s: (Pairing, seq<Row>, seq<Row>))
    requires left != [] || right != []
    ensures left == Lefts([s.0]) + s.1
    ensures right == Rights([s.0]) + s.2
    ensures |s.1| + |s.2| < |left| + |right|
  {
    var rank := Rank(Head(left), Head(right));
    if rank == -1 then (OnlyLeft(left[0]), left[1..], right)
    else if rank == 1 then (OnlyRight(right[0]), left, right[1..])
    else (Matched(left[0], right[0]), left[1..], right[1..])
  }

  /** Every iteration of the merge, until both streams are exhausted. */
  function Pairings(left: seq<Row>, right: seq<Row>): seq<Pairing>
    decreases |left| + |right|
  {
    if left == [] && right == [] then []
    else
      var (p, left', right') := Step(left, right);
      [p] + Pairings(left', right')
  }

  /** What one iteration yields: the lone row, the unequal matched pair, or nothing
      for a matched pair of equal rows. */
  function Yield(p: Pairing): seq<Diff>
  {
    match p
    case OnlyLeft(l) => [LeftOnly(l)]
    case OnlyRight(r) => [RightOnly(r)]
    case Matched(l, r) => if l == r then [] else [Conflict(l, r)]
  }

  /** Everything a sequence of iterations yields, in order. */
  function Differences(ps: seq<Pairing>): seq<Diff>
  {
    if ps == [] then [] else Yield(ps[0]) + Differences(ps[1..])
  }

  /** The differences a complete scan of the two streams yields. */
  function Scan(left: seq<Row>, right: seq<Row>): seq<Diff>
  {
    Differences(Pairings(left, right))
  }

  /** The key a difference is reported under. */
  function DiffKey(d: Diff): Key
  {
    match d
    case LeftOnly(r) => r.key
    case RightOnly(r) => r.key
    case Conflict(l, _) => l.key
  }

  /** The primary-key tuples occurring in a stream. */
  function KeysOf(rows: seq<Row>): set<Key>
  {
    set r | r in rows :: r.key
  }

  /** Key order, weak or strict. */
  predicate KeyOrdered(a: Key, b: Key, strict: bool)
  {
    if strict then Less(a, b) else LessEq(a, b)
  }

  /** A stream ordered by primary key: ascending (`strict`, as a table whose keys are
      unique returns it) or non-decreasing. */
  predicate SortedByKey(rows: seq<Row>, strict: bool)
  {
    forall i, j | 0 <= i < j < |rows| :: KeyOrdered(rows[i].key, rows[j].key, strict)
  }

  /** Differences reported in (weakly or strictly) ascending key order. */
  predicate DiffsSortedByKey(ds: seq<Diff>, strict: bool)
  {
    forall i, j | 0 <= i < j < |ds| :: KeyOrdered(DiffKey(ds[i]), DiffKey(ds[j]), strict)
  }

  /** A difference the two streams justify: a lone row comes from its side, and a
      conflict pairs a left row with a right row that share a key but differ. */
  predicate DiffFrom(d: Diff, left: seq<Row>, right: seq<Row>)
  {
    match d
    case LeftOnly(l) => l in left
    case RightOnly(r) => r in right
    case Conflict(l, r) => l in left && r in right && l.key == r.key && l != r
  }
}
