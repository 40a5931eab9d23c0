/** What the merge guarantees: every row consumed exactly once and in order, the
    number of iterations, the order of the differences, and — for key-sorted
    streams — exactly which differences are reported. */
module MergeDiffLemmas {
  import opened KeyOrder
  import opened MergeDiff

  /** The rows consumed by two runs of iterations are those of each, in order. */
  lemma {:induction false} LeftsAppend(a: seq<Pairing>, b: seq<Pairing>)
    ensures Lefts(a + b) == Lefts(a) + Lefts(b)
    ensures Rights(a + b) == Rights(a) + Rights(b)
  {
    if a != [] {
      assert (a + b)[1..] == a[1..] + b;
      LeftsAppend(a[1..], b);
    } else {
      assert a + b == b;
    }
  }

  /** The differences of two runs of iterations are those of each, in order. */
  lemma {:induction false} DifferencesAppend(a: seq<Pairing>, b: seq<Pairing>)
    ensures Differences(a + b) == Differences(a) + Differences(b)
  {
    if a != [] {
      assert (a + b)[1..] == a[1..] + b;
      DifferencesAppend(a[1..], b);
    } else {
      assert a + b == b;
    }
  }

  /** The pairings of two streams not both empty: one step, then the rest. */
  lemma PairingsUnfold(left: seq<Row>, right: seq<Row>)
    requires left != [] || right != []
    ensures Pairings(left, right) == [Step(left, right).0] + Pairings(Step(left, right).1, Step(left, right).2)
  {
  }

  /** One iteration's yield followed by what the rest of the scan yields. */
  lemma ScanUnfold(left: seq<Row>, right: seq<Row>)
    requires left != [] || right != []
    ensures Scan(left, right) == Yield(Step(left, right).0) + Scan(Step(left, right).1, Step(left, right).2)
  {
    var (p, left', right') := Step(left, right);
    assert Pairings(left, right) == [p] + Pairings(left', right');
    assert ([p] + Pairings(left', right'))[1..] == Pairings(left', right');
  }

  /** Every row of both streams is consumed exactly once, in stream order: the left
      rows the iterations take are exactly `left`, and the right rows exactly `right`. */
  lemma {:induction false} PairingsConsumeEachRowOnce(left: seq<Row>, right: seq<Row>)
    ensures Lefts(Pairings(left, right)) == left
    ensures Rights(Pairings(left, right)) == right
    decreases |left| + |right|
  {
    if left != [] || right != [] {
      var (p, left', right') := Step(left, right);
      PairingsConsumeEachRowOnce(left', right');
      LeftsAppend([p], Pairings(left', right'));
    }
  }

  /** The loop runs at least as many times as the longer stream has rows, and at most
      as many times as both have together: each iteration clears one or two slots. */
  lemma {:induction false} PairingsCount(left: seq<Row>, right: seq<Row>)
    ensures |left| <= |Pairings(left, right)| && |right| <= |Pairings(left, right)|
    ensures |Pairings(left, right)| <= |left| + |right|
    decreases |left| + |right|
  {
    if left != [] || right != [] {
      var (p, left', right') := Step(left, right);
      PairingsCount(left', right');
    }
  }

  /** A scan of two identical streams reports nothing, and a scan that reports nothing
      was given identical streams. */
  lemma {:induction false} ScanEmptyIffIdentical(left: seq<Row>, right: seq<Row>)
    ensures Scan(left, right) == [] <==> left == right
    decreases |left| + |right|
  {
    if left != [] || right != [] {
      var (p, left', right') := Step(left, right);
      ScanUnfold(left, right);
      ScanEmptyIffIdentical(left', right');
      if left == right {
        CompareZeroIffEqual(left[0].key, right[0].key);
        assert p == Matched(left[0], right[0]);
      }
      if Scan(left, right) == [] {
        assert Yield(p) == [];
        assert left == [left[0]] + left';
      }
    }
  }

  /** A difference justified by sub-streams is justified by the whole streams. */
  lemma DiffFromWeaken(d: Diff, left': seq<Row>, right': seq<Row>, left: seq<Row>, right: seq<Row>)
    requires DiffFrom(d, left', right')
    requires forall x | x in left' :: x in left
    requires forall y | y in right' :: y in right
    ensures DiffFrom(d, left, right)
  {
  }

  /** Every reported difference is justified by the streams: lone rows come from their
      side, and conflicts pair a left and a right row with one key and unequal values. */
  lemma {:induction false} ScanSound(left: seq<Row>, right: seq<Row>)
    ensures forall d | d in Scan(left, right) :: DiffFrom(d, left, right)
    decreases |left| + |right|
  {
    if left != [] || right != [] {
      var (p, left', right') := Step(left, right);
      ScanUnfold(left, right);
      ScanSound(left', right');
      forall d | d in Scan(left, right)
        ensures DiffFrom(d, left, right)
      {
        if d in Scan(left', right') {
          DiffFromWeaken(d, left', right', left, right);
        }
      }
    }
  }

  /** In a sorted stream the head is ordered before every later row. */
  lemma SortedHead(rows: seq<Row>, x: Row, strict: bool)
    requires rows != [] && SortedByKey(rows, strict)
    requires x in rows[1..]
    ensures KeyOrdered(rows[0].key, x.key, strict)
    ensures LessEq(rows[0].key, x.key)
  {
    var j :| 1 <= j < |rows| && rows[j] == x;
    assert KeyOrdered(rows[0].key, rows[j].key, strict);
  }

  /** In a sorted stream the head is no later than any row. */
  lemma SortedHeadLessEq(rows: seq<Row>, x: Row, strict: bool)
    requires SortedByKey(rows, strict)
    requires x in rows
    ensures LessEq(rows[0].key, x.key)
  {
    if x == rows[0] {
      CompareZeroIffEqual(x.key, x.key);
    } else {
      assert rows == [rows[0]] + rows[1..];
      SortedHead(rows, x, strict);
    }
  }

  /** Dropping the first row keeps a stream sorted. */
  lemma SortedTail(rows: seq<Row>, strict: bool)
    requires rows != [] && SortedByKey(rows, strict)
    ensures SortedByKey(rows[1..], strict)
  {
    forall i, j | 0 <= i < j < |rows[1..]|
      ensures KeyOrdered(rows[1..][i].key, rows[1..][j].key, strict)
    {
      assert rows[1..][i] == rows[i + 1] && rows[1..][j] == rows[j + 1];
    }
  }

  /** The key one iteration reports under is ordered before every row that remains. */
  lemma StepKeyBelowRest(left: seq<Row>, right: seq<Row>, strict: bool, x: Row)
    requires left != [] || right != []
    requires SortedByKey(left, strict) && SortedByKey(right, strict)
    requires x in Step(left, right).1 || x in Step(left, right).2
    ensures forall d | d in Yield(Step(left, right).0) :: KeyOrdered(DiffKey(d), x.key, strict)
  {
    var (p, left', right') := Step(left, right);
    var rank := Rank(Head(left), Head(right));
    if rank == -1 {
      var k := left[0].key;
      if x in left' {
        SortedHead(left, x, strict);
      } else {
        SortedHeadLessEq(right, x, strict);
        LessThenLessEq(k, right[0].key, x.key);
      }
    } else if rank == 1 {
      var k := right[0].key;
      if x in right' {
        SortedHead(right, x, strict);
      } else {
        SortedHeadLessEq(left, x, strict);
        LessThenLessEq(k, left[0].key, x.key);
      }
    } else {
      if x in left' {
        SortedHead(left, x, strict);
      } else {
        SortedHead(right, x, strict);
      }
    }
  }

  /** The streams one iteration leaves are still key-sorted. */
  lemma StepKeepsSorted(left: seq<Row>, right: seq<Row>, strict: bool)
    requires left != [] || right != []
    requires SortedByKey(left, strict) && SortedByKey(right, strict)
    ensures SortedByKey(Step(left, right).1, strict) && SortedByKey(Step(left, right).2, strict)
  {
    var (_, left', right') := Step(left, right);
    if left' != left {
      SortedTail(left, strict);
    }
    if right' != right {
      SortedTail(right, strict);
    }
  }

  /** What the first iteration yields is ordered before everything the rest of the
      scan yields. */
  lemma StepYieldBelowRest(left: seq<Row>, right: seq<Row>, strict: bool)
    requires left != [] || right != []
    requires SortedByKey(left, strict) && SortedByKey(right, strict)
    ensures var s := Step(left, right);
            forall d, e | d in Yield(s.0) && e in Scan(s.1, s.2) :: KeyOrdered(DiffKey(d), DiffKey(e), strict)
  {
    var (p, left', right') := Step(left, right);
    ScanSound(left', right');
    forall d, e | d in Yield(p) && e in Scan(left', right')
      ensures KeyOrdered(DiffKey(d), DiffKey(e), strict)
    {
      assert DiffFrom(e, left', right');
      var x := if e.RightOnly? then e.row else if e.LeftOnly? then e.row else e.left;
      StepKeyBelowRest(left, right, strict, x);
    }
  }

  /** At most one difference put before a key-ordered sequence, and ordered before
      each of its elements, keeps it key-ordered. */
  lemma PrependSorted(head: seq<Diff>, rest: seq<Diff>, strict: bool)
    requires |head| <= 1 && DiffsSortedByKey(rest, strict)
    requires forall d, e | d in head && e in rest :: KeyOrdered(DiffKey(d), DiffKey(e), strict)
    ensures DiffsSortedByKey(head + rest, strict)
  {
    var all := head + rest;
    forall i, j | 0 <= i < j < |all|
      ensures KeyOrdered(DiffKey(all[i]), DiffKey(all[j]), strict)
    {
      if i < |head| {
        assert all[i] in head && all[j] == rest[j - |head|];
      } else {
        assert all[i] == rest[i - |head|] && all[j] == rest[j - |head|];
      }
    }
  }

  /** For two key-sorted streams the differences come out in key order: non-decreasing
      in general, strictly ascending when both streams have unique keys. */
  lemma {:induction false} ScanFollowsKeyOrder(left: seq<Row>, right: seq<Row>, strict: bool)
    requires SortedByKey(left, strict) && SortedByKey(right, strict)
    ensures DiffsSortedByKey(Scan(left, right), strict)
    decreases |left| + |right|
  {
    if left != [] || right != [] {
      var (p, left', right') := Step(left, right);
      StepKeepsSorted(left, right, strict);
      ScanUnfold(left, right);
      ScanFollowsKeyOrder(left', right', strict);
      StepYieldBelowRest(left, right, strict);
      PrependSorted(Yield(p), Scan(left', right'), strict);
    }
  }

  /** With unique keys on both sides no difference is reported twice. */
  lemma ScanYieldsEachDifferenceOnce(left: seq<Row>, right: seq<Row>)
    requires SortedByKey(left, true) && SortedByKey(right, true)
    ensures forall i, j | 0 <= i < j < |Scan(left, right)| :: Scan(left, right)[i] != Scan(left, right)[j]
  {
    var s := Scan(left, right);
    ScanFollowsKeyOrder(left, right, true);
    forall i, j | 0 <= i < j < |s|
      ensures s[i] != s[j]
    {
      assert Less(DiffKey(s[i]), DiffKey(s[j]));
      LessImpliesNotEqual(DiffKey(s[i]), DiffKey(s[j]));
    }
  }

  /** The keys of a stream are its first key and the keys of the rest. */
  lemma KeysOfCons(rows: seq<Row>)
    requires rows != []
    ensures KeysOf(rows) == {rows[0].key} + KeysOf(rows[1..])
  {
    assert rows == [rows[0]] + rows[1..];
  }

  /** With unique keys, the head's key does not occur again later in the stream. */
  lemma StrictHeadNotInTail(rows: seq<Row>)
    requires rows != [] && SortedByKey(rows, true)
    ensures rows[0].key !in KeysOf(rows[1..])
    ensures rows[0] !in rows[1..]
  {
    forall x | x in rows[1..]
      ensures x.key != rows[0].key
    {
      SortedHead(rows, x, true);
      LessImpliesNotEqual(rows[0].key, x.key);
    }
  }

  /** A row no later row can match: the head of one stream, when it ranks strictly
      below the head of the other stream, below all of that other stream's keys. */
  lemma BelowHeadNotInKeys(k: Key, rows: seq<Row>)
    requires rows != [] && SortedByKey(rows, true)
    requires Less(k, rows[0].key)
    ensures k !in KeysOf(rows)
  {
    forall y | y in rows
      ensures y.key != k
    {
      SortedHeadLessEq(rows, y, true);
      LessThenLessEq(k, rows[0].key, y.key);
      LessImpliesNotEqual(k, y.key);
    }
  }

  /** One iteration, unfolded by the rank of the two heads. */
  lemma ScanUnfoldByRank(left: seq<Row>, right: seq<Row>)
    requires left != [] || right != []
    ensures Rank(Head(left), Head(right)) == -1 ==>
      Scan(left, right) == [LeftOnly(left[0])] + Scan(left[1..], right)
    ensures Rank(Head(left), Head(right)) == 1 ==>
      Scan(left, right) == [RightOnly(right[0])] + Scan(left, right[1..])
    ensures Rank(Head(left), Head(right)) == 0 ==>
      Scan(left, right) == Yield(Matched(left[0], right[0])) + Scan(left[1..], right[1..])
  {
    ScanUnfold(left, right);
  }

  /** The inductive steps of `LeftOnlyComplete`, one per rank: given the statement
      for the scan of the remaining streams (`rest`), it holds for the scan `s`
      one iteration earlier. */
  lemma LeftOnlyWhenLeftFirst(left: seq<Row>, right: seq<Row>, x: Row, s: seq<Diff>, rest: seq<Diff>)
    requires left != [] && SortedByKey(left, true) && SortedByKey(right, true)
    requires right != [] ==> Less(left[0].key, right[0].key)
    requires s == [LeftOnly(left[0])] + rest
    requires LeftOnly(x) in rest <==> x in left[1..] && x.key !in KeysOf(right)
    ensures LeftOnly(x) in s <==> x in left && x.key !in KeysOf(right)
  {
    assert left == [left[0]] + left[1..];
    if right != [] {
      BelowHeadNotInKeys(left[0].key, right);
    }
  }

  lemma LeftOnlyWhenRightFirst(left: seq<Row>, right: seq<Row>, x: Row, s: seq<Diff>, rest: seq<Diff>)
    requires right != [] && SortedByKey(left, true) && SortedByKey(right, true)
    requires left != [] ==> Less(right[0].key, left[0].key)
    requires s == [RightOnly(right[0])] + rest
    requires LeftOnly(x) in rest <==> x in left && x.key !in KeysOf(right[1..])
    ensures LeftOnly(x) in s <==> x in left && x.key !in KeysOf(right)
  {
    KeysOfCons(right);
    if x in left {
      SortedHeadLessEq(left, x, true);
      LessThenLessEq(right[0].key, left[0].key, x.key);
      LessImpliesNotEqual(right[0].key, x.key);
    }
  }

  lemma LeftOnlyWhenMatched(left: seq<Row>, right: seq<Row>, x: Row, s: seq<Diff>, rest: seq<Diff>)
    requires left != [] && right != [] && SortedByKey(left, true) && SortedByKey(right, true)
    requires left[0].key == right[0].key
    requires s == Yield(Matched(left[0], right[0])) + rest
    requires LeftOnly(x) in rest <==> x in left[1..] && x.key !in KeysOf(right[1..])
    ensures LeftOnly(x) in s <==> x in left && x.key !in KeysOf(right)
  {
    KeysOfCons(right);
    StrictHeadNotInTail(left);
    if x in left[1..] {
      SortedHead(left, x, true);
      LessImpliesNotEqual(left[0].key, x.key);
    }
    assert left == [left[0]] + left[1..];
  }

  /** For streams with unique keys, a left row is reported as `:left` exactly when it
      is a left row whose key no right row has. */
  lemma {:induction false} LeftOnlyComplete(left: seq<Row>, right: seq<Row>, x: Row)
    requires SortedByKey(left, true) && SortedByKey(right, true)
    ensures LeftOnly(x) in Scan(left, right) <==> x in left && x.key !in KeysOf(right)
    decreases |left| + |right|
  {
    if left != [] || right != [] {
      ScanUnfoldByRank(left, right);
      var rank := Rank(Head(left), Head(right));
      if rank == -1 {
        SortedTail(left, true);
        LeftOnlyComplete(left[1..], right, x);
        LeftOnlyWhenLeftFirst(left, right, x, Scan(left, right), Scan(left[1..], right));
      } else if rank == 1 {
        SortedTail(right, true);
        LeftOnlyComplete(left, right[1..], x);
        LeftOnlyWhenRightFirst(left, right, x, Scan(left, right), Scan(left, right[1..]));
      } else {
        SortedTail(left, true);
        SortedTail(right, true);
        LeftOnlyComplete(left[1..], right[1..], x);
        LeftOnlyWhenMatched(left, right, x, Scan(left, right), Scan(left[1..], right[1..]));
      }
    }
  }

  /** The inductive steps of `RightOnlyComplete`, one per rank. */
  lemma RightOnlyWhenLeftFirst(left: seq<Row>, right: seq<Row>, y: Row, s: seq<Diff>, rest: seq<Diff>)
    requires left != [] && SortedByKey(left, true) && SortedByKey(right, true)
    requires right != [] ==> Less(left[0].key, right[0].key)
    requires s == [LeftOnly(left[0])] + rest
    requires RightOnly(y) in rest <==> y in right && y.key !in KeysOf(left[1..])
    ensures RightOnly(y) in s <==> y in right && y.key !in KeysOf(left)
  {
    KeysOfCons(left);
    if y in right {
      SortedHeadLessEq(right, y, true);
      LessThenLessEq(left[0].key, right[0].key, y.key);
      LessImpliesNotEqual(left[0].key, y.key);
    }
  }

  lemma RightOnlyWhenRightFirst(left: seq<Row>, right: seq<Row>, y: Row, s: seq<Diff>, rest: seq<Diff>)
    requires right != [] && SortedByKey(left, true) && SortedByKey(right, true)
    requires left != [] ==> Less(right[0].key, left[0].key)
    requires s == [RightOnly(right[0])] + rest
    requires RightOnly(y) in rest <==> y in right[1..] && y.key !in KeysOf(left)
    ensures RightOnly(y) in s <==> y in right && y.key !in KeysOf(left)
  {
    assert right == [right[0]] + right[1..];
    if left != [] {
      BelowHeadNotInKeys(right[0].key, left);
    }
  }

  lemma RightOnlyWhenMatched(left: seq<Row>, right: seq<Row>, y: Row, s: seq<Diff>, rest: seq<Diff>)
    requires left != [] && right != [] && SortedByKey(left, true) && SortedByKey(right, true)
    requires left[0].key == right[0].key
    requires s == Yield(Matched(left[0], right[0])) + rest
    requires RightOnly(y) in rest <==> y in right[1..] && y.key !in KeysOf(left[1..])
    ensures RightOnly(y) in s <==> y in right && y.key !in KeysOf(left)
  {
    KeysOfCons(left);
    StrictHeadNotInTail(right);
    if y in right[1..] {
      SortedHead(right, y, true);
      LessImpliesNotEqual(right[0].key, y.key);
    }
    assert right == [right[0]] + right[1..];
  }

  /** For streams with unique keys, a right row is reported as `:right` exactly when it
      is a right row whose key no left row has. */
  lemma {:induction false} RightOnlyComplete(left: seq<Row>, right: seq<Row>, y: Row)
    requires SortedByKey(left, true) && SortedByKey(right, true)
    ensures RightOnly(y) in Scan(left, right) <==> y in right && y.key !in KeysOf(left)
    decreases |left| + |right|
  {
    if left != [] || right != [] {
      ScanUnfoldByRank(left, right);
      var rank := Rank(Head(left), Head(right));
      if rank == -1 {
        SortedTail(left, true);
        RightOnlyComplete(left[1..], right, y);
        RightOnlyWhenLeftFirst(left, right, y, Scan(left, right), Scan(left[1..], right));
      } else if rank == 1 {
        SortedTail(right, true);
        RightOnlyComplete(left, right[1..], y);
        RightOnlyWhenRightFirst(left, right, y, Scan(left, right), Scan(left, right[1..]));
      } else {
        SortedTail(left, true);
        SortedTail(right, true);
        RightOnlyComplete(left[1..], right[1..], y);
        RightOnlyWhenMatched(left, right, y, Scan(left, right), Scan(left[1..], right[1..]));
      }
    }
  }

  /** The inductive steps of `ConflictComplete`, one per rank. */
  lemma ConflictWhenLeftFirst(left: seq<Row>, right: seq<Row>, x: Row, y: Row, s: seq<Diff>, rest: seq<Diff>)
    requires left != [] && SortedByKey(left, true) && SortedByKey(right, true)
    requires right != [] ==> Less(left[0].key, right[0].key)
    requires s == [LeftOnly(left[0])] + rest
    requires Conflict(x, y) in rest <==> x in left[1..] && y in right && x.key == y.key && x != y
    ensures Conflict(x, y) in s <==> x in left && y in right && x.key == y.key && x != y
  {
    StrictHeadNotInTail(left);
    assert left == [left[0]] + left[1..];
    if right != [] {
      BelowHeadNotInKeys(left[0].key, right);
    }
  }

  lemma ConflictWhenRightFirst(left: seq<Row>, right: seq<Row>, x: Row, y: Row, s: seq<Diff>, rest: seq<Diff>)
    requires right != [] && SortedByKey(left, true) && SortedByKey(right, true)
    requires left != [] ==> Less(right[0].key, left[0].key)
    requires s == [RightOnly(right[0])] + rest
    requires Conflict(x, y) in rest <==> x in left && y in right[1..] && x.key == y.key && x != y
    ensures Conflict(x, y) in s <==> x in left && y in right && x.key == y.key && x != y
  {
    StrictHeadNotInTail(right);
    assert right == [right[0]] + right[1..];
    if left != [] {
      BelowHeadNotInKeys(right[0].key, left);
    }
  }

  lemma ConflictWhenMatched(left: seq<Row>, right: seq<Row>, x: Row, y: Row, s: seq<Diff>, rest: seq<Diff>)
    requires left != [] && right != [] && SortedByKey(left, true) && SortedByKey(right, true)
    requires left[0].key == right[0].key
    requires s == Yield(Matched(left[0], right[0])) + rest
    requires Conflict(x, y) in rest <==> x in left[1..] && y in right[1..] && x.key == y.key && x != y
    ensures Conflict(x, y) in s <==> x in left && y in right && x.key == y.key && x != y
  {
    StrictHeadNotInTail(left);
    StrictHeadNotInTail(right);
    if x in left[1..] {
      SortedHead(left, x, true);
      LessImpliesNotEqual(left[0].key, x.key);
    }
    if y in right[1..] {
      SortedHead(right, y, true);
      LessImpliesNotEqual(right[0].key, y.key);
    }
    assert left == [left[0]] + left[1..];
    assert right == [right[0]] + right[1..];
  }

  /** For streams with unique keys, a pair is reported as `:conflict` exactly when it
      is a left row and a right row with the same key and unequal values. */
  lemma {:induction false} ConflictComplete(left: seq<Row>, right: seq<Row>, x: Row, y: Row)
    requires SortedByKey(left, true) && SortedByKey(right, true)
    ensures Conflict(x, y) in Scan(left, right) <==> x in left && y in right && x.key == y.key && x != y
    decreases |left| + |right|
  {
    if left != [] || right != [] {
      ScanUnfoldByRank(left, right);
      var rank := Rank(Head(left), Head(right));
      if rank == -1 {
        SortedTail(left, true);
        ConflictComplete(left[1..], right, x, y);
        ConflictWhenLeftFirst(left, right, x, y, Scan(left, right), Scan(left[1..], right));
      } else if rank == 1 {
        SortedTail(right, true);
        ConflictComplete(left, right[1..], x, y);
        ConflictWhenRightFirst(left, right, x, y, Scan(left, right), Scan(left, right[1..]));
      } else {
        SortedTail(left, true);
        SortedTail(right, true);
        ConflictComplete(left[1..], right[1..], x, y);
        ConflictWhenMatched(left, right, x, y, Scan(left, right), Scan(left[1..], right[1..]));
      }
    }
  }
}
