/**
 * What the row scanner guarantees: the runs it hands to `AddRun` are canonical (adjacent
 * runs differ, a dead run is always followed by a live run) and, read back, they place
 * exactly the live cells of the rectangle.
 */
module RleProofs {
  import opened LineEncoder
  import opened RleScan
  import opened RleRead

  /** The runs still pending in the scanner, in the order they would be flushed: `$`, `b`, `o`. */
  function Pending(st: Scan): seq<Run> {
    (if st.dollrun > 0 then [Run(EndOfLine, st.dollrun)] else [])
    + (if st.brun > 0 then [Run(Dead, st.brun)] else [])
    + (if st.orun > 0 then [Run(Alive, st.orun)] else [])
  }

  /** Where a reader would stand if the pending runs were flushed now, in the order `$`, `b`, `o`. */
  function Virtual(st: Scan): Cursor {
    var c0 := Decode(st.runs);
    var c1 := if st.dollrun > 0 then Step(c0, Run(EndOfLine, st.dollrun)) else c0;
    var c2 := if st.brun > 0 then Step(c1, Run(Dead, st.brun)) else c1;
    if st.orun > 0 then Step(c2, Run(Alive, st.orun)) else c2
  }

  /** Flushing the pending runs and reading everything back lands where `Virtual` says. */
  lemma VirtualFlush(st: Scan)
    ensures Decode(st.runs + Pending(st)) == Virtual(st)
  {
    var p1: seq<Run> := if st.dollrun > 0 then [Run(EndOfLine, st.dollrun)] else [];
    var p2: seq<Run> := if st.brun > 0 then [Run(Dead, st.brun)] else [];
    var p3: seq<Run> := if st.orun > 0 then [Run(Alive, st.orun)] else [];
    assert st.runs + Pending(st) == ((st.runs + p1) + p2) + p3;
    if st.dollrun > 0 { DecodeAppend(st.runs, p1[0]); } else { assert st.runs + p1 == st.runs; }
    if st.brun > 0 { DecodeAppend(st.runs + p1, p2[0]); } else { assert st.runs + p1 + p2 == st.runs + p1; }
    if st.orun > 0 { DecodeAppend(st.runs + p1 + p2, p3[0]); } else { assert st.runs + p1 + p2 + p3 == st.runs + p1 + p2; }
  }

  predicate ScanToken(c: char) {
    c == Dead || c == Alive || c == EndOfLine
  }

  /** `b` may follow `a` in canonical RLE: a different token, and only a live run after a dead run. */
  predicate Follows(a: Run, b: Run) {
    a.token != b.token && (a.token == Dead ==> b.token == Alive)
  }

  /**
   * Canonical row-scan output: every run is `b`, `o` or `$` with a positive count and follows
   * the run before it, so runs are maximal and no dead run is left dangling.
   */
  predicate Canonical(xs: seq<Run>) {
    |xs| == 0 ||
    var n := |xs| - 1;
    Canonical(xs[..n]) && ScanToken(xs[n].token) && xs[n].count >= 1 && (n > 0 ==> Follows(xs[n - 1], xs[n]))
  }

  /** Every count is at most `m`. */
  predicate Bounded(xs: seq<Run>, m: nat) {
    |xs| == 0 || (Bounded(xs[..|xs| - 1], m) && xs[|xs| - 1].count <= m)
  }

  lemma CanonicalSnoc(xs: seq<Run>, a: Run)
    ensures Canonical(xs + [a])
      <==> Canonical(xs) && ScanToken(a.token) && a.count >= 1 && (|xs| > 0 ==> Follows(xs[|xs| - 1], a))
  {
    assert (xs + [a])[..|xs|] == xs;
  }

  lemma BoundedSnoc(xs: seq<Run>, a: Run, m: nat)
    ensures Bounded(xs + [a], m) <==> Bounded(xs, m) && a.count <= m
  {
    assert (xs + [a])[..|xs|] == xs;
  }

  /** The largest count a run can have: the rectangle's width or height. */
  function Bound(r: Rect): nat {
    var w := r.right - r.left + 1;
    var h := r.bottom - r.top + 1;
    if w < 0 && h < 0 then 0 else if w >= h then w else h
  }

  /** Facts about the pending counts that hold at every loop head of `writerle`. */
  predicate Shape(r: Rect, cy: int, st: Scan) {
    && st.brun == 0
    && st.last != DeadToken
    && st.dollrun <= cy - r.top
    && (st.last == AliveToken ==> st.orun >= 1 && st.dollrun == 0)
    && (st.last == NoToken ==> st.orun == 0)
    && (st.dollrun == 0 && st.orun == 0 ==> st.runs == [])
    && Canonical(st.runs + Pending(st))
    && Bounded(st.runs + Pending(st), Bound(r))
  }

  /** No run has been emitted yet, or the last one emitted is a live run. */
  predicate EndsAlive(xs: seq<Run>) {
    |xs| > 0 ==> xs[|xs| - 1].token == Alive
  }

  /** Invariant of the column loop at column `cx` of row `cy`. */
  predicate RowInv(u: Universe, r: Rect, cy: int, cx: int, st: Scan) {
    && r.top <= cy <= r.bottom
    && r.left <= cx <= r.right + 1
    && Shape(r, cy, st)
    && (st.last == NoToken ==> cx == r.left && EndsAlive(st.runs))
    && st.orun <= cx - r.left
    && Virtual(st) == Cursor(cx - r.left, cy - r.top, WindowBefore(u, r, cy, cx))
  }

  /** State when the column loop of row `cy` has finished without an abort. */
  predicate RowDone(u: Universe, r: Rect, cy: int, st: Scan) {
    && r.top <= cy <= r.bottom
    && Shape(r, cy, st)
    && st.orun <= r.right - r.left + 1
    && (st.last == NoToken ==> EndsAlive(st.runs))
    && Virtual(st).y == cy - r.top
    && Virtual(st).cells == WindowBefore(u, r, cy, r.right + 1)
  }

  /** Invariant of the row loop before row `cy`. */
  predicate RowsInv(u: Universe, r: Rect, cy: int, st: Scan) {
    && r.top <= cy <= r.bottom + 1
    && st.brun == 0
    && st.orun == 0
    && st.dollrun <= cy - r.top
    && (st.dollrun == 0 ==> st.runs == [] && cy == r.top)
    && EndsAlive(st.runs)
    && Canonical(st.runs + Pending(st))
    && Bounded(st.runs + Pending(st), Bound(r))
    && Virtual(st) == Cursor(0, cy - r.top, WindowBefore(u, r, cy, r.left))
  }

  // ---------------------------------------------------------------------------
  // Window bookkeeping

  /** Membership in the scanned part of the window, cell by cell. */
  lemma {:induction false} CellsBeforeMember(cells: seq<Cell>, r: Rect, cy: int, cx: int, z: Cell)
    ensures z in CellsBefore(cells, r, cy, cx)
      <==> exists i :: 0 <= i < |cells| && InRect(cells[i], r) && Before(cells[i], cy, cx) && Rel(cells[i], r) == z
  {
    if |cells| > 0 {
      var n := |cells| - 1;
      var front := cells[..n];
      CellsBeforeMember(front, r, cy, cx, z);
      assert forall i :: 0 <= i < n ==> front[i] == cells[i];
      if z in CellsBefore(cells, r, cy, cx) && z !in CellsBefore(front, r, cy, cx) {
        assert InRect(cells[n], r) && Before(cells[n], cy, cx) && Rel(cells[n], r) == z;
      }
    }
  }

  /** Two scan positions that split the rectangle's cells alike have scanned the same cells. */
  lemma {:induction false} CellsBeforeSame(cells: seq<Cell>, r: Rect, cy1: int, cx1: int, cy2: int, cx2: int)
    requires forall i :: 0 <= i < |cells| && InRect(cells[i], r) ==> (Before(cells[i], cy1, cx1) <==> Before(cells[i], cy2, cx2))
    ensures CellsBefore(cells, r, cy1, cx1) == CellsBefore(cells, r, cy2, cx2)
  {
    if |cells| > 0 {
      var n := |cells| - 1;
      assert forall i :: 0 <= i < n ==> cells[..n][i] == cells[i];
      CellsBeforeSame(cells[..n], r, cy1, cx1, cy2, cx2);
    }
  }

  /** A scan position that no cell of the rectangle precedes has scanned nothing. */
  lemma {:induction false} CellsBeforeNone(cells: seq<Cell>, r: Rect, cy: int, cx: int)
    requires forall i :: 0 <= i < |cells| && InRect(cells[i], r) ==> !Before(cells[i], cy, cx)
    ensures CellsBefore(cells, r, cy, cx) == {}
  {
    if |cells| > 0 {
      var n := |cells| - 1;
      assert forall i :: 0 <= i < n ==> cells[..n][i] == cells[i];
      CellsBeforeNone(cells[..n], r, cy, cx);
    }
  }

  /**
   * Moving the scan position of row `cy` from column `a` to column `b` passes only the cell at
   * `b - 1`, when no other cell of the rectangle lies in that stretch of the row.
   */
  lemma {:induction false} CellsBeforeAdd(cells: seq<Cell>, r: Rect, cy: int, a: int, b: int)
    requires a < b
    requires forall i :: 0 <= i < |cells| && InRect(cells[i], r) && cells[i].y == cy && a <= cells[i].x < b ==> cells[i].x == b - 1
    ensures var t := Cell(b - 1, cy);
      CellsBefore(cells, r, cy, b)
        == CellsBefore(cells, r, cy, a) + (if t in cells && InRect(t, r) then {Rel(t, r)} else {})
  {
    if |cells| > 0 {
      var n := |cells| - 1;
      var front := cells[..n];
      assert forall i :: 0 <= i < n ==> front[i] == cells[i];
      CellsBeforeAdd(front, r, cy, a, b);
      assert cells == front + [cells[n]];
      assert forall e :: e in cells <==> e in front || e == cells[n];
    }
  }

  /** Columns `cx .. right` of row `cy` hold no live cell when the clamped skip is negative. */
  lemma WindowRowRest(u: Universe, r: Rect, cy: int, cx: int)
    requires r.left <= cx <= r.right
    requires ClampedSkip(u, cx, cy, r.right) < 0
    ensures WindowBefore(u, r, cy, cx) == WindowBefore(u, r, cy, r.right + 1)
  {
    var cells := u.cells;
    NextCellSpec(cells, cx, cy);
    forall i | 0 <= i < |cells| && InRect(cells[i], r)
      ensures Before(cells[i], cy, cx) <==> Before(cells[i], cy, r.right + 1)
    {
      assert cells[i] in cells;
    }
    CellsBeforeSame(cells, r, cy, cx, cy, r.right + 1);
  }

  /** Passing the live cell at `cx + skip` adds exactly that cell to the scanned part of the window. */
  lemma WindowAddCell(u: Universe, r: Rect, cy: int, cx: int, skip: int)
    requires r.top <= cy <= r.bottom && r.left <= cx <= r.right
    requires skip == ClampedSkip(u, cx, cy, r.right) && skip >= 0
    ensures cx + skip <= r.right
    ensures WindowBefore(u, r, cy, cx + skip + 1) == WindowBefore(u, r, cy, cx) + {Cell(cx + skip - r.left, cy - r.top)}
  {
    var cells := u.cells;
    NextCellSpec(cells, cx, cy);
    var t := Cell(cx + skip, cy);
    assert t in cells && InRect(t, r);
    forall i | 0 <= i < |cells| && InRect(cells[i], r) && cells[i].y == cy && cx <= cells[i].x < cx + skip + 1
      ensures cells[i].x == cx + skip
    {
      assert cells[i] in cells;
    }
    CellsBeforeAdd(cells, r, cy, cx, cx + skip + 1);
  }

  /** After the last row, the scanned part is the whole window. */
  lemma WindowAllRows(u: Universe, r: Rect)
    ensures WindowBefore(u, r, r.bottom + 1, r.left) == Window(u, r)
  {
    var cells := u.cells;
    forall z
      ensures z in WindowBefore(u, r, r.bottom + 1, r.left) <==> z in Window(u, r)
    {
      CellsBeforeMember(cells, r, r.bottom + 1, r.left, z);
      if z in Window(u, r) {
        var c :| c in cells && InRect(c, r) && Rel(c, r) == z;
        var i :| 0 <= i < |cells| && cells[i] == c;
        assert InRect(cells[i], r) && Before(cells[i], r.bottom + 1, r.left);
      }
    }
  }

  /** The start of row `cy + 1` and the end of row `cy` have scanned the same cells. */
  lemma WindowNextRow(u: Universe, r: Rect, cy: int)
    ensures WindowBefore(u, r, cy + 1, r.left) == WindowBefore(u, r, cy, r.right + 1)
  {
    CellsBeforeSame(u.cells, r, cy + 1, r.left, cy, r.right + 1);
  }

  /** Nothing of the window precedes its top-left corner. */
  lemma WindowNothingBefore(u: Universe, r: Rect)
    ensures WindowBefore(u, r, r.top, r.left) == {}
  {
    CellsBeforeNone(u.cells, r, r.top, r.left);
  }

  // ---------------------------------------------------------------------------
  // One iteration of the column loop

  /** Finding a live cell after `skip` dead cells flushes exactly what was pending and leaves one live cell pending. */
  lemma SeeCellRuns(st: Scan, skip: nat)
    requires st.brun == 0 && st.last != DeadToken
    requires st.last == AliveToken ==> st.orun >= 1 && st.dollrun == 0
    requires st.last == NoToken ==> st.orun == 0
    requires !(st.last == AliveToken && skip == 0)
    ensures SeeCell(st, skip).runs == st.runs + Pending(st) + (if skip > 0 then [Run(Dead, skip)] else [])
    ensures SeeCell(st, skip).runs + Pending(SeeCell(st, skip)) == st.runs + Pending(st) + (if skip > 0 then [Run(Dead, skip)] else []) + [Run(Alive, 1)]
    ensures SeeCell(st, skip).brun == 0 && SeeCell(st, skip).dollrun == 0 && SeeCell(st, skip).orun == 1 && SeeCell(st, skip).last == AliveToken
  {
    var st1 := if skip > 0 then SeeDead(st, skip) else st;
    var st2 := SeeAlive(st1);
    if st.last == AliveToken {
      assert Pending(st) == [Run(Alive, st.orun)];
      assert st2.runs == st.runs + [Run(Alive, st.orun)] + [Run(Dead, skip)];
    } else {
      if skip > 0 {
        assert st2.runs == st.runs + Pending(st) + [Run(Dead, skip)];
      } else {
        assert st2.runs == st.runs + Pending(st);
      }
    }
    assert Pending(st2) == [Run(Alive, 1)];
  }

  /** A further live cell right after a live run only lengthens the pending live run. */
  lemma SeeCellMerge(st: Scan)
    requires st.brun == 0 && st.last == AliveToken && st.orun >= 1 && st.dollrun == 0
    ensures var st2 := SeeAlive(st);
      && st2.runs == st.runs
      && Pending(st) == [Run(Alive, st.orun)]
      && Pending(st2) == [Run(Alive, st.orun + 1)]
  {
  }

  /** Dropping runs from the end keeps the rest canonical and bounded. */
  lemma {:induction false} GoodPrefix(xs: seq<Run>, k: nat, m: nat)
    requires Canonical(xs) && Bounded(xs, m) && k <= |xs|
    ensures Canonical(xs[..k]) && Bounded(xs[..k], m)
    decreases |xs| - k
  {
    if k < |xs| {
      var front := xs[..|xs| - 1];
      assert front[..k] == xs[..k];
      GoodPrefix(front, k, m);
    } else {
      assert xs[..k] == xs;
    }
  }

  /** One live cell, read from cursor `c`, moves the reader one column on and places that cell. */
  lemma StepOneCell(c: Cursor)
    ensures Step(c, Run(Alive, 1)) == Cursor(c.x + 1, c.y, c.cells + {Cell(c.x, c.y)})
  {
    assert Span(c.x, c.y, 1) == {Cell(c.x, c.y)};
  }

  /** The reader's view when the live cell lengthens the pending live run. */
  lemma VirtualMerge(st: Scan, v: Cursor)
    requires st.brun == 0 && st.last == AliveToken && st.orun >= 1 && st.dollrun == 0
    requires v == Virtual(st)
    ensures Virtual(SeeAlive(st)) == Cursor(v.x + 1, v.y, v.cells + {Cell(v.x, v.y)})
  {
    var d := Decode(st.runs);
    assert v == Step(d, Run(Alive, st.orun));
    AliveMerge(d, st.orun);
    assert Virtual(SeeAlive(st)) == Step(v, Run(Alive, 1));
    StepOneCell(v);
  }

  /** The reader's view when the live cell starts a new live run, after `skip` dead cells. */
  lemma VirtualNew(st: Scan, skip: nat, v: Cursor)
    requires st.brun == 0 && st.last != DeadToken
    requires st.last == AliveToken ==> st.orun >= 1 && st.dollrun == 0
    requires st.last == NoToken ==> st.orun == 0
    requires !(st.last == AliveToken && skip == 0)
    requires v == Virtual(st)
    ensures Virtual(SeeCell(st, skip)) == Cursor(v.x + skip + 1, v.y, v.cells + {Cell(v.x + skip, v.y)})
  {
    var st2 := SeeCell(st, skip);
    var xs := st.runs + Pending(st);
    SeeCellRuns(st, skip);
    VirtualFlush(st);
    var c := Cursor(v.x + skip, v.y, v.cells);
    if skip > 0 {
      assert st2.runs == xs + [Run(Dead, skip)];
      DecodeAppend(xs, Run(Dead, skip));
      assert Decode(st2.runs) == c;
    } else {
      assert st2.runs == xs;
    }
    assert Virtual(st2) == Step(c, Run(Alive, 1));
    StepOneCell(c);
  }

  /** The reader's view after one live cell: it advances over the gap and the cell, and has the cell. */
  lemma ColumnVirtual(st: Scan, skip: nat, v: Cursor)
    requires st.brun == 0 && st.last != DeadToken
    requires st.last == AliveToken ==> st.orun >= 1 && st.dollrun == 0
    requires st.last == NoToken ==> st.orun == 0
    requires v == Virtual(st)
    ensures Virtual(SeeCell(st, skip)) == Cursor(v.x + skip + 1, v.y, v.cells + {Cell(v.x + skip, v.y)})
  {
    if st.last == AliveToken && skip == 0 {
      VirtualMerge(st, v);
    } else {
      VirtualNew(st, skip, v);
    }
  }

  /** A further live cell in the same run keeps the runs canonical and bounded. */
  lemma ShapeMerge(r: Rect, cy: int, cx: int, st: Scan)
    requires Shape(r, cy, st) && st.last == AliveToken
    requires r.left <= cx <= r.right
    requires st.orun <= cx - r.left
    ensures Shape(r, cy, SeeAlive(st)) && SeeAlive(st).orun <= cx + 1 - r.left
  {
    SeeCellMerge(st);
    var m := Bound(r);
    CanonicalSnoc(st.runs, Run(Alive, st.orun));
    BoundedSnoc(st.runs, Run(Alive, st.orun), m);
    CanonicalSnoc(st.runs, Run(Alive, st.orun + 1));
    BoundedSnoc(st.runs, Run(Alive, st.orun + 1), m);
  }

  /** Appending an optional dead run and a live run of one keeps runs canonical and bounded. */
  lemma AppendCellRuns(xs: seq<Run>, skip: nat, m: nat)
    requires Canonical(xs) && Bounded(xs, m)
    requires |xs| > 0 ==> xs[|xs| - 1].token != Dead
    requires |xs| > 0 && skip == 0 ==> xs[|xs| - 1].token != Alive
    requires 1 <= m && skip <= m
    ensures var tail := (if skip > 0 then [Run(Dead, skip)] else []) + [Run(Alive, 1)];
      Canonical(xs + tail) && Bounded(xs + tail, m)
  {
    if skip > 0 {
      var ys := xs + [Run(Dead, skip)];
      CanonicalSnoc(xs, Run(Dead, skip));
      BoundedSnoc(xs, Run(Dead, skip), m);
      CanonicalSnoc(ys, Run(Alive, 1));
      BoundedSnoc(ys, Run(Alive, 1), m);
      assert xs + ([Run(Dead, skip)] + [Run(Alive, 1)]) == ys + [Run(Alive, 1)];
    } else {
      CanonicalSnoc(xs, Run(Alive, 1));
      BoundedSnoc(xs, Run(Alive, 1), m);
      assert xs + ([] + [Run(Alive, 1)]) == xs + [Run(Alive, 1)];
    }
  }

  /** A live cell that starts a new live run keeps the runs canonical and bounded. */
  lemma ShapeNew(r: Rect, cy: int, cx: int, st: Scan, skip: nat)
    requires Shape(r, cy, st)
    requires r.top <= cy <= r.bottom
    requires r.left <= cx && cx + skip <= r.right
    requires !(st.last == AliveToken && skip == 0)
    ensures Shape(r, cy, SeeCell(st, skip)) && SeeCell(st, skip).orun == 1
  {
    var st2 := SeeCell(st, skip);
    var xs := st.runs + Pending(st);
    SeeCellRuns(st, skip);
    var tail := (if skip > 0 then [Run(Dead, skip)] else []) + [Run(Alive, 1)];
    if st.last == AliveToken {
      assert xs[|xs| - 1] == Run(Alive, st.orun);
    } else if st.dollrun > 0 {
      assert xs[|xs| - 1] == Run(EndOfLine, st.dollrun);
    } else {
      assert xs == [];
    }
    AppendCellRuns(xs, skip, Bound(r));
    assert st2.runs + Pending(st2) == xs + tail;
  }

  /** The pending-run facts survive one live cell, and the runs stay canonical and bounded. */
  lemma ColumnShape(r: Rect, cy: int, cx: int, st: Scan, skip: nat)
    requires Shape(r, cy, st)
    requires r.top <= cy <= r.bottom
    requires r.left <= cx && cx + skip <= r.right
    requires st.orun <= cx - r.left
    ensures Shape(r, cy, SeeCell(st, skip))
    ensures SeeCell(st, skip).orun <= cx + skip + 1 - r.left && SeeCell(st, skip).last == AliveToken
  {
    if st.last == AliveToken && skip == 0 {
      ShapeMerge(r, cy, cx, st);
    } else {
      ShapeNew(r, cy, cx, st, skip);
    }
  }

  /** The reader's view after a live cell found at `cx + skip` is the window scanned up to that cell. */
  lemma ColumnWindow(u: Universe, r: Rect, cy: int, cx: int, st: Scan, skip: int)
    requires r.top <= cy <= r.bottom && r.left <= cx <= r.right
    requires st.brun == 0 && st.last != DeadToken
    requires st.last == AliveToken ==> st.orun >= 1 && st.dollrun == 0
    requires st.last == NoToken ==> st.orun == 0
    requires Virtual(st) == Cursor(cx - r.left, cy - r.top, WindowBefore(u, r, cy, cx))
    requires skip == ClampedSkip(u, cx, cy, r.right) && skip >= 0
    ensures cx + skip <= r.right
    ensures Virtual(SeeCell(st, skip)) == Cursor(cx + skip + 1 - r.left, cy - r.top, WindowBefore(u, r, cy, cx + skip + 1))
  {
    WindowAddCell(u, r, cy, cx, skip);
    var w := WindowBefore(u, r, cy, cx);
    var w2 := WindowBefore(u, r, cy, cx + skip + 1);
    var c := Cell(cx + skip - r.left, cy - r.top);
    var v := Cursor(cx - r.left, cy - r.top, w);
    var st2 := SeeCell(st, skip);
    ColumnVirtual(st, skip, v);
    assert c == Cell(v.x + skip, v.y);
    assert Virtual(st2) == Cursor(v.x + skip + 1, v.y, w + {c});
    assert w + {c} == w2;
    assert Virtual(st2) == Cursor(cx + skip + 1 - r.left, cy - r.top, w2);
  }

  // ---------------------------------------------------------------------------
  // The column loop

  /** The fields that decide the output; the progress counters and the abort flag are not among them. */
  predicate SameOutput(a: Scan, b: Scan) {
    a.runs == b.runs && a.brun == b.brun && a.orun == b.orun && a.dollrun == b.dollrun && a.last == b.last
  }

  /** The progress poll changes nothing that is written to the file. */
  lemma PollKeepsOutput(st: Scan, cancel: nat -> bool)
    ensures SameOutput(st, Poll(st, cancel))
    ensures !Poll(st, cancel).aborted ==> Poll(st, cancel) == Poll(st, NeverCancel)
  {
  }

  lemma RowInvSameOutput(u: Universe, r: Rect, cy: int, cx: int, a: Scan, b: Scan)
    requires RowInv(u, r, cy, cx, a) && SameOutput(a, b)
    ensures RowInv(u, r, cy, cx, b)
  {
    assert Pending(a) == Pending(b);
  }

  /** Runs that are canonical and bounded with the pending runs stay so without them. */
  lemma EmittedRuns(r: Rect, cy: int, st: Scan)
    requires Shape(r, cy, st)
    ensures Canonical(st.runs) && Bounded(st.runs, Bound(r))
  {
    var xs := st.runs + Pending(st);
    GoodPrefix(xs, |st.runs|, Bound(r));
    assert xs[..|st.runs|] == st.runs;
  }

  /** No live cell remains in the row: the loop ends with the whole row scanned. */
  lemma RowRestEmpty(u: Universe, r: Rect, cy: int, cx: int, st: Scan)
    requires RowInv(u, r, cy, cx, st)
    requires cx > r.right || ClampedSkip(u, cx, cy, r.right) < 0
    ensures RowDone(u, r, cy, st)
  {
    if cx <= r.right {
      WindowRowRest(u, r, cy, cx);
    }
  }

  /** What the column loop of row `cy` leaves behind: canonical output if aborted, the finished row otherwise. */
  predicate RowOutcome(u: Universe, r: Rect, cy: int, st': Scan) {
    && (st'.aborted ==> Canonical(st'.runs) && Bounded(st'.runs, Bound(r)))
    && (!st'.aborted ==> RowDone(u, r, cy, st'))
  }

  lemma {:induction false} ScanRowCorrect(u: Universe, cancel: nat -> bool, r: Rect, cy: int, cx: int, st: Scan)
    requires !st.aborted
    requires RowInv(u, r, cy, cx, st)
    ensures RowOutcome(u, r, cy, ScanRow(u, cancel, cy, cx, r.right, st))
    decreases r.right - cx + 1, 1
  {
    if cx > r.right {
      RowRestEmpty(u, r, cy, cx, st);
    } else if ClampedSkip(u, cx, cy, r.right) >= 0 {
      ScanRowFound(u, cancel, r, cy, cx, st);
    } else {
      ScanRowNone(u, cancel, r, cy, cx, st);
    }
  }

  /** One iteration of the column loop that finds a live cell, including the progress poll. */
  lemma ColumnIteration(u: Universe, cancel: nat -> bool, r: Rect, cy: int, cx: int, st: Scan, skip: int)
    requires RowInv(u, r, cy, cx, st) && cx <= r.right
    requires skip == ClampedSkip(u, cx, cy, r.right) && skip >= 0
    ensures cx + skip <= r.right
    ensures RowInv(u, r, cy, cx + skip + 1, Visit(st, skip, cancel))
    ensures Visit(st, skip, cancel).aborted ==> Canonical(Visit(st, skip, cancel).runs) && Bounded(Visit(st, skip, cancel).runs, Bound(r))
  {
    var st2 := SeeCell(st, skip);
    var st3 := Visit(st, skip, cancel);
    ColumnWindow(u, r, cy, cx, st, skip);
    ColumnShape(r, cy, cx, st, skip);
    assert st3 == Poll(st2, cancel);
    PollKeepsOutput(st2, cancel);
    assert Virtual(st3) == Virtual(st2) && Pending(st3) == Pending(st2);
    EmittedRuns(r, cy, st3);
  }

  /** The iteration that finds a live cell, then the rest of the row. */
  lemma {:induction false} ScanRowFound(u: Universe, cancel: nat -> bool, r: Rect, cy: int, cx: int, st: Scan)
    requires !st.aborted
    requires RowInv(u, r, cy, cx, st) && cx <= r.right
    requires ClampedSkip(u, cx, cy, r.right) >= 0
    ensures RowOutcome(u, r, cy, ScanRow(u, cancel, cy, cx, r.right, st))
    decreases r.right - cx + 1, 0
  {
    var skip := ClampedSkip(u, cx, cy, r.right);
    var st3 := Visit(st, skip, cancel);
    ColumnIteration(u, cancel, r, cy, cx, st, skip);
    ScanRowFoundUnfold(u, cancel, cy, cx, r.right, st, skip);
    if !st3.aborted {
      ScanRowCorrect(u, cancel, r, cy, cx + skip + 1, st3);
    }
  }

  /** One unrolling of the column loop when it finds a live cell `skip` columns on. */
  lemma ScanRowFoundUnfold(u: Universe, cancel: nat -> bool, cy: int, cx: int, right: int, st: Scan, skip: int)
    requires cx <= right && skip == ClampedSkip(u, cx, cy, right) && skip >= 0
    ensures var st3 := Visit(st, skip, cancel);
      ScanRow(u, cancel, cy, cx, right, st) == if st3.aborted then st3 else ScanRow(u, cancel, cy, cx + skip + 1, right, st3)
  {
  }

  /** The iteration that finds no further live cell ends the row. */
  lemma ScanRowNone(u: Universe, cancel: nat -> bool, r: Rect, cy: int, cx: int, st: Scan)
    requires !st.aborted
    requires RowInv(u, r, cy, cx, st) && cx <= r.right
    requires ClampedSkip(u, cx, cy, r.right) < 0
    ensures RowOutcome(u, r, cy, ScanRow(u, cancel, cy, cx, r.right, st))
  {
    var st3 := Visit(st, ClampedSkip(u, cx, cy, r.right), cancel);
    PollKeepsOutput(st, cancel);
    RowInvSameOutput(u, r, cy, cx, st, st3);
    if st3.aborted {
      EmittedRuns(r, cy, st3);
      assert ScanRow(u, cancel, cy, cx, r.right, st) == st3;
    } else {
      RowRestEmpty(u, r, cy, cx, st3);
      assert ScanRow(u, cancel, cy, cx, r.right, st) == ScanRow(u, cancel, cy, r.right + 2, r.right, st3);
    }
  }

  // ---------------------------------------------------------------------------
  // The row loop

  /** Entering row `cy`: `lastchar` is reset and the column loop starts at `left`. */
  lemma RowStart(u: Universe, r: Rect, cy: int, st: Scan)
    requires RowsInv(u, r, cy, st) && cy <= r.bottom && r.left <= r.right
    ensures RowInv(u, r, cy, r.left, st.(last := NoToken, currcount := st.currcount + 1))
  {
    var st0 := st.(last := NoToken, currcount := st.currcount + 1);
    assert Pending(st0) == Pending(st);
    assert Virtual(st0) == Virtual(st);
  }

  /** Leaving row `cy`: a live run is flushed and one more `$` becomes pending. */
  lemma RowEnd(u: Universe, r: Rect, cy: int, st: Scan)
    requires RowDone(u, r, cy, st) && r.left <= r.right
    ensures RowsInv(u, r, cy + 1, EndRow(st))
  {
    if st.last == AliveToken {
      RowEndAlive(u, r, cy, st);
    } else {
      RowEndEmpty(u, r, cy, st);
    }
  }

  /** A row ending in live cells: the pending live run is emitted and one `$` is pending. */
  lemma RowEndAlive(u: Universe, r: Rect, cy: int, st: Scan)
    requires RowDone(u, r, cy, st) && r.left <= r.right && st.last == AliveToken
    ensures RowsInv(u, r, cy + 1, EndRow(st))
  {
    var st' := EndRow(st);
    WindowNextRow(u, r, cy);
    assert 1 <= r.bottom - r.top + 1 <= Bound(r);
    var o := Run(Alive, st.orun);
    assert Pending(st) == [o];
    assert st'.runs == st.runs + [o];
    assert Pending(st') == [Run(EndOfLine, 1)];
    CanonicalSnoc(st.runs + [o], Run(EndOfLine, 1));
    BoundedSnoc(st.runs + [o], Run(EndOfLine, 1), Bound(r));
    DecodeAppend(st.runs, o);
    assert Virtual(st) == Decode(st'.runs);
  }

  /** A row with no live cell: one more `$` is pending. */
  lemma RowEndEmpty(u: Universe, r: Rect, cy: int, st: Scan)
    requires RowDone(u, r, cy, st) && r.left <= r.right && st.last == NoToken
    ensures RowsInv(u, r, cy + 1, EndRow(st))
  {
    var st' := EndRow(st);
    WindowNextRow(u, r, cy);
    assert 1 <= r.bottom - r.top + 1 <= Bound(r);
    var d := st.dollrun;
    assert st'.runs == st.runs;
    assert Pending(st') == [Run(EndOfLine, d + 1)];
    CanonicalSnoc(st.runs, Run(EndOfLine, d + 1));
    BoundedSnoc(st.runs, Run(EndOfLine, d + 1), Bound(r));
    if d > 0 {
      assert Pending(st) == [Run(EndOfLine, d)];
      CanonicalSnoc(st.runs, Run(EndOfLine, d));
      BoundedSnoc(st.runs, Run(EndOfLine, d), Bound(r));
    } else {
      assert st.runs == [];
    }
  }

  /** What the row loop leaves behind: canonical output, and all of the window unless aborted. */
  predicate RowsOutcome(u: Universe, r: Rect, st': Scan) {
    && Canonical(st'.runs)
    && Bounded(st'.runs, Bound(r))
    && (!st'.aborted ==> EndsAlive(st'.runs) && Decode(st'.runs).cells == Window(u, r))
  }

  /** After the last row the emitted runs already place the whole window; only `$` is still pending. */
  lemma RowsFinished(u: Universe, r: Rect, st: Scan)
    requires RowsInv(u, r, r.bottom + 1, st)
    ensures RowsOutcome(u, r, st)
  {
    WindowAllRows(u, r);
    var xs := st.runs + Pending(st);
    GoodPrefix(xs, |st.runs|, Bound(r));
    assert xs[..|st.runs|] == st.runs;
  }

  lemma {:induction false} ScanRowsCorrect(u: Universe, cancel: nat -> bool, r: Rect, cy: int, st: Scan)
    requires !st.aborted && r.left <= r.right
    requires RowsInv(u, r, cy, st)
    ensures RowsOutcome(u, r, ScanRows(u, cancel, r, cy, st))
    decreases r.bottom - cy + 1
  {
    if cy > r.bottom {
      RowsFinished(u, r, st);
    } else {
      var st0 := st.(last := NoToken, currcount := st.currcount + 1);
      var st1 := ScanRow(u, cancel, cy, r.left, r.right, st0);
      RowStart(u, r, cy, st);
      ScanRowCorrect(u, cancel, r, cy, r.left, st0);
      if !st1.aborted {
        RowEnd(u, r, cy, st1);
        ScanRowsCorrect(u, cancel, r, cy + 1, EndRow(st1));
      }
    }
  }

  /** The whole scan of a non-degenerate rectangle: canonical runs that place exactly its live cells unless aborted. */
  lemma ScanBodyCorrect(u: Universe, cancel: nat -> bool, r: Rect)
    requires !Degenerate(r)
    ensures RowsOutcome(u, r, ScanBody(u, cancel, r))
  {
    WindowNothingBefore(u, r);
    assert Pending(Initial) == [];
    assert RowsInv(u, r, r.top, Initial);
    ScanRowsCorrect(u, cancel, r, r.top, Initial);
  }

  /** Every run of a canonical sequence is a well-formed `AddRun` call other than `!`. */
  lemma {:induction false} CanonicalRuns(xs: seq<Run>)
    requires Canonical(xs)
    ensures forall i :: 0 <= i < |xs| ==> ScanToken(xs[i].token) && xs[i].count >= 1
  {
    if |xs| > 0 {
      CanonicalRuns(xs[..|xs| - 1]);
    }
  }

  /** Every count of a bounded sequence is at most the bound. */
  lemma {:induction false} BoundedRuns(xs: seq<Run>, m: nat)
    requires Bounded(xs, m)
    ensures forall i :: 0 <= i < |xs| ==> xs[i].count <= m
  {
    if |xs| > 0 {
      BoundedRuns(xs[..|xs| - 1], m);
    }
  }
}
