/** DirectTableScan: the query each side is read with, and `run`, the loop that walks
    the two type-casting cursors in lockstep and hands every difference to its block. */
module DirectTableScan {
  import opened Wrappers
  import opened MergeDiff
  import MergeDiffLemmas

  /** What a scan knows about its tables: both names, the left table's column names
      and the primary-key column names, in declared order. */
  datatype ScanContext = ScanContext(
    leftTable: string,
    rightTable: string,
    leftColumns: seq<string>,
    primaryKeyNames: seq<string>)

  /** Ruby's Array#join. */
  function Join(parts: seq<string>, sep: string): string
  {
    if parts == [] then ""
    else if |parts| == 1 then parts[0]
    else parts[0] + sep + Join(parts[1..], sep)
  }

  /** The part of every query before the table name: always the left table's columns. */
  function QueryPrefix(ctx: ScanContext): string
  {
    "select " + Join(ctx.leftColumns, ", ") + " from "
  }

  /** The part of every query after the table name: always the primary-key order. */
  function QuerySuffix(ctx: ScanContext): string
  {
    " order by " + Join(ctx.primaryKeyNames, ", ")
  }

  /** Reads the table name back out of a query built for `ctx`, or nil when the text
      does not have the shape construct_query gives it. */
  function QueryTarget(ctx: ScanContext, q: string): Option<string>
  {
    var pre := QueryPrefix(ctx);
    var suf := QuerySuffix(ctx);
    if |pre| + |suf| <= |q| && q[..|pre|] == pre && q[|q| - |suf|..] == suf
    then Some(q[|pre|..|q| - |suf|])
    else None
  }

  /** construct_query: the select statement a cursor over `target` runs. The table
      name can be read back from it, and everything around the name is fixed by
      the left table's columns and the key order. */
  function ConstructQuery(ctx: ScanContext, target: string): (q: string)
    ensures QueryTarget(ctx, q) == Some(target)
    ensures q[..|QueryPrefix(ctx)|] == QueryPrefix(ctx)
    ensures q[|q| - |QuerySuffix(ctx)|..] == QuerySuffix(ctx)
  {
    var q := QueryPrefix(ctx) + target + QuerySuffix(ctx);
    assert q[..|QueryPrefix(ctx)|] == QueryPrefix(ctx);
    assert q[|q| - |QuerySuffix(ctx)|..] == QuerySuffix(ctx);
    assert q[|QueryPrefix(ctx)|..|q| - |QuerySuffix(ctx)|] == target;
    q
  }

  /** The left and right queries of a scan agree on everything but the table name:
      the same column list and key order surround both, and they are equal only when
      the two table names are. */
  lemma LeftAndRightQueriesDifferOnlyInTable(ctx: ScanContext)
    ensures var l := ConstructQuery(ctx, ctx.leftTable);
            var r := ConstructQuery(ctx, ctx.rightTable);
            && l[..|QueryPrefix(ctx)|] == r[..|QueryPrefix(ctx)|]
            && l[|l| - |QuerySuffix(ctx)|..] == r[|r| - |QuerySuffix(ctx)|..]
            && (l == r <==> ctx.leftTable == ctx.rightTable)
  {
    var l := ConstructQuery(ctx, ctx.leftTable);
    var r := ConstructQuery(ctx, ctx.rightTable);
    if l == r {
      assert QueryTarget(ctx, l) == QueryTarget(ctx, r);
    }
  }

  /** A TypeCastingCursor as the scan sees it: the query it was opened with, the rows
      of its result set (already cast) that it has not yet returned, and how often
      `clear` ran on it. `next?` holds while `unread` is not empty. */
  datatype Cursor = Cursor(query: string, unread: seq<Row>, clears: nat)

  /** Where `run` can be cut short by an exception (iterations are counted from 0):
      - opening the left cursor raises, or opening the right cursor raises;
      - RaiseAt(n): the guard of iteration n raises, or the refill of the left slot
        in iteration n raises with the left cursor where it was. `n` may equal the
        number of iterations: then the final evaluation of the guard raises. A block
        that raises while handling what iteration n yielded leaves the same
        differences delivered, and the cursors in the same place, as RaiseAt(n + 1);
      - RightRefillFails(n): the refill of the right slot in iteration n raises,
        after the left slot has been refilled from the left cursor. */
  datatype Fault = NoFault | LeftOpenFails | RightOpenFails | RaiseAt(iteration: nat) | RightRefillFails(iteration: nat)
  {
    /** The fault is raised inside the loop. */
    predicate InLoop()
    {
      RaiseAt? || RightRefillFails?
    }
  }

  /** How `run` ended: the differences handed to the block, whether it ended by an
      exception, how many loop iterations completed, and each cursor variable as the
      `ensure` clause left it (nil when that cursor was never created). */
  datatype RunOutcome = RunOutcome(
    diffs: seq<Diff>,
    raised: bool,
    iterations: nat,
    leftCursor: Option<Cursor>,
    rightCursor: Option<Cursor>)

  /** The rows a slot holds: none for nil, one for a pending row. */
  function Pending(slot: Option<Row>): seq<Row>
  {
    if slot.None? then [] else [slot.value]
  }

  /** The rows of one side the scan has still to dispose of: the pending row, if
      any, and the rows its cursor has not yet returned. */
  function Remaining(slot: Option<Row>, c: Cursor): seq<Row>
  {
    Pending(slot) + c.unread
  }

  /** Moving the next unread row into an empty slot keeps the rows that remain. */
  lemma RefillKeepsRemaining(c: Cursor)
    requires c.unread != []
    ensures Remaining(Some(c.unread[0]), c.(unread := c.unread[1..])) == Remaining(None, c)
  {
    assert c.unread == [c.unread[0]] + c.unread[1..];
  }

  /** One pass of run's loop body: refill each empty slot from its cursor, rank the
      pending rows, yield, and clear the slots the rank disposed of. It performs
      exactly one step of the merge over the rows that remain, moves each cursor
      forward by at most one row, and leaves a row pending on one side exactly when
      the step took only the other side's row and this side has rows left. */
  method Iterate(leftRow: Option<Row>, rightRow: Option<Row>, lc: Cursor, rc: Cursor)
    returns (yielded: seq<Diff>, leftRow': Option<Row>, rightRow': Option<Row>, lc': Cursor, rc': Cursor)
    requires Remaining(leftRow, lc) != [] || Remaining(rightRow, rc) != []
    ensures lc' == lc.(unread := lc'.unread) && rc' == rc.(unread := rc'.unread)
    ensures lc'.unread == lc.unread || (lc.unread != [] && lc'.unread == lc.unread[1..])
    ensures rc'.unread == rc.unread || (rc.unread != [] && rc'.unread == rc.unread[1..])
    ensures var s := Step(Remaining(leftRow, lc), Remaining(rightRow, rc));
            && yielded == Yield(s.0)
            && Remaining(leftRow', lc') == s.1
            && Remaining(rightRow', rc') == s.2
            && (leftRow'.Some? <==> s.0.OnlyRight? && s.1 != [])
            && (rightRow'.Some? <==> s.0.OnlyLeft? && s.2 != [])
  {
    ghost var remLeft := Remaining(leftRow, lc);
    ghost var remRight := Remaining(rightRow, rc);
    leftRow', rightRow', lc', rc' := leftRow, rightRow, lc, rc;
    // an empty left slot takes the left cursor's next row, if it has one
    if lc'.unread != [] && leftRow'.None? {
      RefillKeepsRemaining(lc');
      leftRow' := Some(lc'.unread[0]);
      lc' := lc'.(unread := lc'.unread[1..]);
    }
    // and likewise on the right
    if rc'.unread != [] && rightRow'.None? {
      RefillKeepsRemaining(rc');
      rightRow' := Some(rc'.unread[0]);
      rc' := rc'.(unread := rc'.unread[1..]);
    }
    assert Head(remLeft) == leftRow' && Head(remRight) == rightRow';
    var rank := Rank(leftRow', rightRow');
    if rank == -1 {
      yielded := [LeftOnly(leftRow'.value)];
      leftRow' := None;
      assert remLeft[1..] == Remaining(leftRow', lc');
    } else if rank == 1 {
      yielded := [RightOnly(rightRow'.value)];
      rightRow' := None;
      assert remRight[1..] == Remaining(rightRow', rc');
    } else {
      if leftRow'.value != rightRow'.value {
        yielded := [Conflict(leftRow'.value, rightRow'.value)];
      } else {
        yielded := [];
      }
      leftRow', rightRow' := None, None;
      assert remLeft[1..] == Remaining(leftRow', lc');
      assert remRight[1..] == Remaining(rightRow', rc');
    }
  }

  /** One more completed iteration: the pairing it made is the next one of the whole
      scan, and the differences so far grow by what it yielded. */
  lemma AdvanceIteration(all: seq<Pairing>, i: nat, p: Pairing, rest: seq<Pairing>)
    requires i <= |all| && all[i..] == [p] + rest
    ensures i < |all| && all[i + 1..] == rest
    ensures Differences(all[..i + 1]) == Differences(all[..i]) + Yield(p)
  {
    assert all[i] == all[i..][0];
    assert all[i + 1..] == all[i..][1..];
    assert all[..i + 1] == all[..i] + [p];
    MergeDiffLemmas.DifferencesAppend(all[..i], [p]);
    assert Differences([p]) == Yield(p) + Differences([]);
  }

  /** After the iterations `done`, the left side waits with a pending row when it has
      rows left: the last iteration took only a right row. */
  predicate LeftWaits(done: seq<Pairing>)
  {
    done != [] && done[|done| - 1].OnlyRight?
  }

  /** See `LeftWaits`. */
  predicate RightWaits(done: seq<Pairing>)
  {
    done != [] && done[|done| - 1].OnlyLeft?
  }

  /** What a cursor has still to return when its side has the rows `rest` left: all
      of them, but the first when the side holds that one as its pending row. */
  function CursorRest(rest: seq<Row>, waits: bool): seq<Row>
  {
    if waits && rest != [] then rest[1..] else rest
  }

  /** What run's loop keeps true between iterations, over the pairings `all` of the
      whole scan: the cursors keep their query and clear count, the first
      `iterations` pairings are done and have yielded `diffs`, the pending rows and
      unread rows pair up as the rest of the scan, and a slot holds a row exactly
      when its side waits and has rows left. */
  ghost predicate Progress(all: seq<Pairing>, lc0: Cursor, rc0: Cursor, leftRow: Option<Row>, rightRow: Option<Row>,
                           lc: Cursor, rc: Cursor, diffs: seq<Diff>, iterations: nat)
  {
    && lc == lc0.(unread := lc.unread) && rc == rc0.(unread := rc.unread)
    && iterations <= |all|
    && all[iterations..] == Pairings(Remaining(leftRow, lc), Remaining(rightRow, rc))
    && diffs == Differences(all[..iterations])
    && (leftRow.Some? <==> LeftWaits(all[..iterations]) && Remaining(leftRow, lc) != [])
    && (rightRow.Some? <==> RightWaits(all[..iterations]) && Remaining(rightRow, rc) != [])
  }

  /** The first `n` iterations of a scan consumed exactly the rows in front of what
      remains of each stream. */
  lemma ConsumedSoFar(left: seq<Row>, right: seq<Row>, n: nat, remLeft: seq<Row>, remRight: seq<Row>)
    requires n <= |Pairings(left, right)| && Pairings(left, right)[n..] == Pairings(remLeft, remRight)
    ensures left == Lefts(Pairings(left, right)[..n]) + remLeft
    ensures right == Rights(Pairings(left, right)[..n]) + remRight
  {
    var all := Pairings(left, right);
    assert all == all[..n] + all[n..];
    MergeDiffLemmas.LeftsAppend(all[..n], all[n..]);
    MergeDiffLemmas.PairingsConsumeEachRowOnce(left, right);
    MergeDiffLemmas.PairingsConsumeEachRowOnce(remLeft, remRight);
  }

  /** Where the loop leaves the cursors after `iterations` iterations: each holds what
      its side has not consumed, less the pending row. */
  lemma CursorsAfter(lc0: Cursor, rc0: Cursor, leftRow: Option<Row>, rightRow: Option<Row>,
                     lc: Cursor, rc: Cursor, diffs: seq<Diff>, iterations: nat)
    requires Progress(Pairings(lc0.unread, rc0.unread), lc0, rc0, leftRow, rightRow, lc, rc, diffs, iterations)
    ensures var done := Pairings(lc0.unread, rc0.unread)[..iterations];
            && |Lefts(done)| <= |lc0.unread|
            && lc.unread == CursorRest(lc0.unread[|Lefts(done)|..], LeftWaits(done))
            && |Rights(done)| <= |rc0.unread|
            && rc.unread == CursorRest(rc0.unread[|Rights(done)|..], RightWaits(done))
  {
    ConsumedSoFar(lc0.unread, rc0.unread, iterations, Remaining(leftRow, lc), Remaining(rightRow, rc));
    var done := Pairings(lc0.unread, rc0.unread)[..iterations];
    assert lc0.unread[|Lefts(done)|..] == Remaining(leftRow, lc);
    assert rc0.unread[|Rights(done)|..] == Remaining(rightRow, rc);
  }

  /** An iteration of the loop body keeps `Progress`. */
  lemma ProgressStep(all: seq<Pairing>, lc0: Cursor, rc0: Cursor, leftRow: Option<Row>, rightRow: Option<Row>,
                     lc: Cursor, rc: Cursor, diffs: seq<Diff>, iterations: nat,
                     yielded: seq<Diff>, leftRow': Option<Row>, rightRow': Option<Row>, lc': Cursor, rc': Cursor)
    requires Progress(all, lc0, rc0, leftRow, rightRow, lc, rc, diffs, iterations)
    requires Remaining(leftRow, lc) != [] || Remaining(rightRow, rc) != []
    requires lc' == lc.(unread := lc'.unread) && rc' == rc.(unread := rc'.unread)
    requires var s := Step(Remaining(leftRow, lc), Remaining(rightRow, rc));
             && yielded == Yield(s.0)
             && Remaining(leftRow', lc') == s.1
             && Remaining(rightRow', rc') == s.2
             && (leftRow'.Some? <==> s.0.OnlyRight? && s.1 != [])
             && (rightRow'.Some? <==> s.0.OnlyLeft? && s.2 != [])
    ensures iterations < |all|
    ensures Progress(all, lc0, rc0, leftRow', rightRow', lc', rc', diffs + yielded, iterations + 1)
  {
    var s := Step(Remaining(leftRow, lc), Remaining(rightRow, rc));
    MergeDiffLemmas.PairingsUnfold(Remaining(leftRow, lc), Remaining(rightRow, rc));
    AdvanceIteration(all, iterations, s.0, Pairings(s.1, s.2));
    assert all[..iterations + 1][iterations] == all[iterations..][0] == s.0;
  }

  /** When no rows remain, every pairing has been done. */
  lemma LoopExit(all: seq<Pairing>, i: nat, diffs: seq<Diff>)
    requires i <= |all| && all[i..] == Pairings([], [])
    requires diffs == Differences(all[..i])
    ensures i == |all| && diffs == Differences(all)
  {
    assert all[..i] == all;
  }

  /** Where run's loop stands once its guard is false or raises: finished with the
      whole scan, or cut short by the fault with the iterations so far. */
  lemma LoopEnds(lc0: Cursor, rc0: Cursor, fault: Fault, leftRow: Option<Row>, rightRow: Option<Row>,
                 lc: Cursor, rc: Cursor, diffs: seq<Diff>, iterations: nat)
    requires Progress(Pairings(lc0.unread, rc0.unread), lc0, rc0, leftRow, rightRow, lc, rc, diffs, iterations)
    requires fault.RaiseAt? ==> iterations <= fault.iteration
    requires fault == RaiseAt(iterations) || (leftRow.None? && rightRow.None? && lc.unread == [] && rc.unread == [])
    ensures var raised := fault == RaiseAt(iterations);
            && (raised <==> fault.RaiseAt? && fault.iteration <= |Pairings(lc0.unread, rc0.unread)|)
            && (!raised ==>
                && diffs == Scan(lc0.unread, rc0.unread)
                && iterations == |Pairings(lc0.unread, rc0.unread)|
                && lc.unread == [] && rc.unread == [])
            && (raised ==>
                && diffs == Differences(Pairings(lc0.unread, rc0.unread)[..fault.iteration])
                && var done := Pairings(lc0.unread, rc0.unread)[..fault.iteration];
                && |Lefts(done)| <= |lc0.unread|
                && lc.unread == CursorRest(lc0.unread[|Lefts(done)|..], LeftWaits(done))
                && |Rights(done)| <= |rc0.unread|
                && rc.unread == CursorRest(rc0.unread[|Rights(done)|..], RightWaits(done)))
  {
    if fault == RaiseAt(iterations) {
      CursorsAfter(lc0, rc0, leftRow, rightRow, lc, rc, diffs, iterations);
    } else {
      LoopExit(Pairings(lc0.unread, rc0.unread), iterations, diffs);
    }
  }

  /** Where run's loop stands when the right refill of iteration `iterations` raises:
      that iteration has started, the iterations before it are done, and the left
      cursor has handed its next row to an empty left slot. */
  lemma RightRefillRaises(lc0: Cursor, rc0: Cursor, leftRow: Option<Row>, rightRow: Option<Row>,
                          lc: Cursor, rc: Cursor, diffs: seq<Diff>, iterations: nat)
    requires Progress(Pairings(lc0.unread, rc0.unread), lc0, rc0, leftRow, rightRow, lc, rc, diffs, iterations)
    requires leftRow.Some? || rightRow.Some? || lc.unread != [] || rc.unread != []
    ensures iterations < |Pairings(lc0.unread, rc0.unread)|
    ensures var done := Pairings(lc0.unread, rc0.unread)[..iterations];
            && |Lefts(done)| <= |lc0.unread|
            && (if leftRow.None? && lc.unread != [] then lc.unread[1..] else lc.unread)
               == CursorRest(lc0.unread[|Lefts(done)|..], true)
            && |Rights(done)| <= |rc0.unread|
            && rc.unread == CursorRest(rc0.unread[|Rights(done)|..], RightWaits(done))
  {
    CursorsAfter(lc0, rc0, leftRow, rightRow, lc, rc, diffs, iterations);
    MergeDiffLemmas.PairingsUnfold(Remaining(leftRow, lc), Remaining(rightRow, rc));
  }

  /** The while statement of run's loop: it iterates from two freshly opened cursors
      and nothing pending until no rows remain or its guard raises, keeping
      `Progress` throughout. */
  method WalkCursors(lc0: Cursor, rc0: Cursor, fault: Fault)
    returns (leftRow: Option<Row>, rightRow: Option<Row>, lc: Cursor, rc: Cursor, diffs: seq<Diff>, iterations: nat)
    ensures Progress(Pairings(lc0.unread, rc0.unread), lc0, rc0, leftRow, rightRow, lc, rc, diffs, iterations)
    ensures fault.InLoop() ==> iterations <= fault.iteration
    ensures (fault.InLoop() && fault.iteration == iterations) || (leftRow.None? && rightRow.None? && lc.unread == [] && rc.unread == [])
  {
    lc, rc := lc0, rc0;
    diffs, iterations := [], 0;
    ghost var all := Pairings(lc0.unread, rc0.unread);
    leftRow, rightRow := None, None;
    assert Remaining(leftRow, lc) == lc0.unread && Remaining(rightRow, rc) == rc0.unread;
    // stop where the fault is due, which may be after the last iteration
    while !(fault.InLoop() && fault.iteration == iterations) && (leftRow.Some? || rightRow.Some? || lc.unread != [] || rc.unread != [])
      invariant Progress(all, lc0, rc0, leftRow, rightRow, lc, rc, diffs, iterations)
      invariant fault.InLoop() ==> iterations <= fault.iteration
      decreases |Remaining(leftRow, lc)| + |Remaining(rightRow, rc)|
    {
      var yielded, leftRow', rightRow', lc', rc' := Iterate(leftRow, rightRow, lc, rc);
      ProgressStep(all, lc0, rc0, leftRow, rightRow, lc, rc, diffs, iterations, yielded, leftRow', rightRow', lc', rc');
      leftRow, rightRow, lc, rc := leftRow', rightRow', lc', rc';
      diffs := diffs + yielded;
      iterations := iterations + 1;
    }
  }

  /** run's loop over two freshly opened cursors. Left to finish, it yields
      exactly the merge's differences after one iteration per pairing, reading every
      row. When it raises in iteration n (at its guard, n possibly one past the last
      iteration, or in its refills), it has yielded what the first n iterations
      yield, and each cursor holds the rows those iterations left, less its pending
      row; a raising right refill comes after the left slot was refilled. */
  method MergeLoop(lc0: Cursor, rc0: Cursor, fault: Fault)
    returns (diffs: seq<Diff>, iterations: nat, raised: bool, lc: Cursor, rc: Cursor)
    ensures lc == lc0.(unread := lc.unread) && rc == rc0.(unread := rc.unread)
    ensures iterations <= |lc0.unread| + |rc0.unread|
    ensures raised <==>
      || (fault.RaiseAt? && fault.iteration <= |Pairings(lc0.unread, rc0.unread)|)
      || (fault.RightRefillFails? && fault.iteration < |Pairings(lc0.unread, rc0.unread)|)
    ensures !raised ==>
      && diffs == Scan(lc0.unread, rc0.unread)
      && iterations == |Pairings(lc0.unread, rc0.unread)|
      && lc.unread == [] && rc.unread == []
    ensures raised ==>
      && iterations == fault.iteration
      && diffs == Differences(Pairings(lc0.unread, rc0.unread)[..fault.iteration])
    ensures raised ==>
      var done := Pairings(lc0.unread, rc0.unread)[..fault.iteration];
      && |Lefts(done)| <= |lc0.unread|
      && lc.unread == CursorRest(lc0.unread[|Lefts(done)|..], LeftWaits(done) || fault.RightRefillFails?)
      && |Rights(done)| <= |rc0.unread|
      && rc.unread == CursorRest(rc0.unread[|Rights(done)|..], RightWaits(done))
  {
    var leftRow, rightRow;
    leftRow, rightRow, lc, rc, diffs, iterations := WalkCursors(lc0, rc0, fault);
    MergeDiffLemmas.PairingsCount(lc0.unread, rc0.unread);
    if fault == RightRefillFails(iterations) && (leftRow.Some? || rightRow.Some? || lc.unread != [] || rc.unread != []) {
      RightRefillRaises(lc0, rc0, leftRow, rightRow, lc, rc, diffs, iterations);
      // the left slot is refilled, then the right refill raises
      if leftRow.None? && lc.unread != [] {
        lc := lc.(unread := lc.unread[1..]);
      }
      raised := true;
    } else {
      raised := fault == RaiseAt(iterations);
      LoopEnds(lc0, rc0, fault, leftRow, rightRow, lc, rc, diffs, iterations);
    }
  }

  /** DirectTableScan#run over the result sets `leftRows` and `rightRows`. Completes
      with exactly the merge's differences after at most |left| + |right| iterations,
      having read every row of both cursors; cut
      short in iteration n it has yielded what the first n iterations yield and left
      each cursor where those iterations, and a refill of the left slot before a
      raising right refill, did; and on every path it clears each
      cursor it created exactly once and leaves an uncreated cursor nil. */
  method Run(ctx: ScanContext, leftRows: seq<Row>, rightRows: seq<Row>, fault: Fault) returns (out: RunOutcome)
    ensures out.leftCursor.Some? <==> !fault.LeftOpenFails?
    ensures out.rightCursor.Some? <==> !fault.LeftOpenFails? && !fault.RightOpenFails?
    ensures out.leftCursor.Some? ==>
      && out.leftCursor.value.clears == 1
      && out.leftCursor.value.query == ConstructQuery(ctx, ctx.leftTable)
    ensures out.rightCursor.Some? ==>
      && out.rightCursor.value.clears == 1
      && out.rightCursor.value.query == ConstructQuery(ctx, ctx.rightTable)
    ensures out.iterations <= |leftRows| + |rightRows|
    ensures out.raised <==>
      || fault.LeftOpenFails?
      || fault.RightOpenFails?
      || (fault.RaiseAt? && fault.iteration <= |Pairings(leftRows, rightRows)|)
      || (fault.RightRefillFails? && fault.iteration < |Pairings(leftRows, rightRows)|)
    ensures !out.raised ==>
      && out.diffs == Scan(leftRows, rightRows)
      && out.iterations == |Pairings(leftRows, rightRows)|
      && out.leftCursor.value.unread == []
      && out.rightCursor.value.unread == []
    ensures out.raised && fault.InLoop() ==>
      && out.iterations == fault.iteration
      && out.diffs == Differences(Pairings(leftRows, rightRows)[..fault.iteration])
    ensures out.raised && fault.InLoop() ==>
      var done := Pairings(leftRows, rightRows)[..fault.iteration];
      && |Lefts(done)| <= |leftRows|
      && out.leftCursor.value.unread == CursorRest(leftRows[|Lefts(done)|..], LeftWaits(done) || fault.RightRefillFails?)
      && |Rights(done)| <= |rightRows|
      && out.rightCursor.value.unread == CursorRest(rightRows[|Rights(done)|..], RightWaits(done))
    ensures out.raised && !fault.InLoop() ==> out.diffs == [] && out.iterations == 0
    ensures fault.RightOpenFails? ==> out.leftCursor.value.unread == leftRows
  {
    // neither cursor exists until it is opened
    var leftCursor: Option<Cursor> := None;
    var rightCursor: Option<Cursor> := None;
    var diffs: seq<Diff> := [];
    var iterations: nat := 0;
    var raised := false;
    if fault.LeftOpenFails? {
      raised := true;
    } else {
      leftCursor := Some(Cursor(ConstructQuery(ctx, ctx.leftTable), leftRows, 0));
      if fault.RightOpenFails? {
        raised := true;
      } else {
        rightCursor := Some(Cursor(ConstructQuery(ctx, ctx.rightTable), rightRows, 0));
        var lc, rc;
        diffs, iterations, raised, lc, rc := MergeLoop(leftCursor.value, rightCursor.value, fault);
        leftCursor, rightCursor := Some(lc), Some(rc);
      }
    }
    // on every path, clear each cursor that was opened
    if leftCursor.Some? {
      leftCursor := Some(leftCursor.value.(clears := leftCursor.value.clears + 1));
    }
    if rightCursor.Some? {
      rightCursor := Some(rightCursor.value.(clears := rightCursor.value.clears + 1));
    }
    out := RunOutcome(diffs, raised, iterations, leftCursor, rightCursor);
  }
}
