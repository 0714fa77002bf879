/**
 * The RLE row scanner of writepattern.cpp (`writerle`): the rectangle is walked row by row,
 * gaps and runs of live cells become pending `b` and `o` runs, row ends accumulate one `$`
 * run, and each pending run is handed to `AddRun` only when a different token starts.
 * The scanner records the `AddRun` calls it makes, in order; `RleText` replays them.
 */
module RleScan {
  import opened LineEncoder

  datatype Cell = Cell(x: int, y: int)

  /** The pattern source, reduced to the set of its live cells (listed in any order). */
  datatype Universe = Universe(cells: seq<Cell>, rule: string)

  /** `lifealgo::isEmpty`. */
  predicate IsEmpty(u: Universe) {
    |u.cells| == 0
  }

  /**
   * `lifealgo::nextcell(x, y)`: the distance from column `x` to the nearest live cell at
   * column `x` or beyond in row `y`, or -1 if that row has none.
   */
  function NextCell(cells: seq<Cell>, x: int, y: int): int {
    if |cells| == 0 then -1
    else
      var rest := NextCell(cells[1..], x, y);
      var c := cells[0];
      if c.y == y && c.x >= x && (rest < 0 || c.x - x < rest) then c.x - x else rest
  }

  /** `NextCell` finds the nearest live cell of the row at or after column `x`, or reports that there is none. */
  lemma {:induction false} NextCellSpec(cells: seq<Cell>, x: int, y: int)
    ensures var d := NextCell(cells, x, y);
      && d >= -1
      && (d >= 0 ==> Cell(x + d, y) in cells)
      && (d >= 0 ==> forall c :: c in cells && c.y == y && c.x >= x ==> c.x >= x + d)
      && (d < 0 ==> forall c :: c in cells && c.y == y ==> c.x < x)
  {
    if |cells| > 0 {
      NextCellSpec(cells[1..], x, y);
      assert forall e :: e in cells ==> e == cells[0] || e in cells[1..];
    }
  }

  /** The rectangle `top..bottom` by `left..right` passed to `writerle`. */
  datatype Rect = Rect(top: int, left: int, bottom: int, right: int)

  predicate Degenerate(r: Rect) {
    r.top > r.bottom || r.left > r.right
  }

  predicate InRect(c: Cell, r: Rect) {
    r.top <= c.y <= r.bottom && r.left <= c.x <= r.right
  }

  /** A cell's position relative to the rectangle's top-left corner, as an RLE reader places it. */
  function Rel(c: Cell, r: Rect): Cell {
    Cell(c.x - r.left, c.y - r.top)
  }

  /** The live cells inside the rectangle, relative to its top-left corner. */
  function Window(u: Universe, r: Rect): set<Cell> {
    set c | c in u.cells && InRect(c, r) :: Rel(c, r)
  }

  /** Cell `c` comes before column `cx` of row `cy` in the scan order (rows top-down, columns left to right). */
  predicate Before(c: Cell, cy: int, cx: int) {
    c.y < cy || (c.y == cy && c.x < cx)
  }

  /** The part of the window that comes before column `cx` of row `cy` in scan order. */
  function WindowBefore(u: Universe, r: Rect, cy: int, cx: int): set<Cell> {
    CellsBefore(u.cells, r, cy, cx)
  }

  /** The cells of `cells` inside the rectangle and before `(cx, cy)`, relative to the rectangle. */
  function CellsBefore(cells: seq<Cell>, r: Rect, cy: int, cx: int): set<Cell> {
    if |cells| == 0 then {}
    else
      var c := cells[|cells| - 1];
      CellsBefore(cells[..|cells| - 1], r, cy, cx) + (if InRect(c, r) && Before(c, cy, cx) then {Rel(c, r)} else {})
  }

  // ---------------------------------------------------------------------------
  // Scanner state

  /** `lastchar`, with the "anything except 'o' or 'b'" sentinel made explicit. */
  datatype LastToken = NoToken | DeadToken | AliveToken

  /**
   * The local state of `writerle`: the `AddRun` calls made so far, the three pending run
   * counts, `lastchar`, the progress counters and whether the user aborted.
   */
  datatype Scan = Scan(runs: seq<Run>, brun: nat, orun: nat, dollrun: nat, last: LastToken,
                       currcount: nat, accum: nat, aborted: bool)

  const Initial: Scan := Scan([], 0, 0, 0, NoToken, 0, 0, false)

  /** Cells processed between two calls of the progress/abort poll (`currcount > 1024`). */
  const PollInterval: nat := 1024

  /** `skip` after clamping: a live cell beyond `right` counts as no live cell at all. */
  function ClampedSkip(u: Universe, cx: int, cy: int, right: int): int {
    var skip := NextCell(u.cells, cx, cy);
    if skip + cx > right then -1 else skip
  }

  /** `skip > 0` dead cells: extend the dead run, or flush the live run and start a dead run. */
  function SeeDead(st: Scan, skip: nat): Scan {
    if st.last == DeadToken then st.(brun := st.brun + skip)
    else
      var st1 := if st.orun > 0 then st.(runs := st.runs + [Run(Alive, st.orun)], orun := 0) else st;
      st1.(last := DeadToken, brun := skip)
  }

  /** A live cell: extend the live run, or flush the `$` and dead runs (in that order) and start one. */
  function SeeAlive(st: Scan): Scan {
    if st.last == AliveToken then st.(orun := st.orun + 1, currcount := st.currcount + 1)
    else
      var st1 := if st.dollrun > 0 then st.(runs := st.runs + [Run(EndOfLine, st.dollrun)], dollrun := 0) else st;
      var st2 := if st1.brun > 0 then st1.(runs := st1.runs + [Run(Dead, st1.brun)], brun := 0) else st1;
      st2.(last := AliveToken, orun := 1, currcount := st2.currcount + 1)
  }

  /** After more than 1024 counted cells the progress poll runs; `cancel` is the user's answer. */
  function Poll(st: Scan, cancel: nat -> bool): Scan {
    if st.currcount > PollInterval then
      var acc := st.accum + st.currcount;
      st.(accum := acc, currcount := 0, aborted := cancel(acc))
    else st
  }

  /** The live cell found `skip` columns on: the gap before it, then the cell itself. */
  function SeeCell(st: Scan, skip: nat): Scan {
    SeeAlive(if skip > 0 then SeeDead(st, skip) else st)
  }

  /** One pass through the column loop's body, given the clamped skip, ending with the progress poll. */
  function Visit(st: Scan, skip: int, cancel: nat -> bool): Scan {
    Poll(if skip >= 0 then SeeCell(st, skip) else st, cancel)
  }

  /** The inner `for (cx = ...; cx <= right; cx++)` loop of `writerle`, from column `cx`. */
  function ScanRow(u: Universe, cancel: nat -> bool, cy: int, cx: int, right: int, st: Scan): Scan
    decreases right - cx + 1
  {
    if cx > right then st
    else
      var skip := ClampedSkip(u, cx, cy, right);
      var st3 := Visit(st, skip, cancel);
      var next := if skip >= 0 then cx + skip else right + 1;
      if st3.aborted then st3 else ScanRow(u, cancel, cy, next + 1, right, st3)
  }

  /** End of a row: a pending dead run is forgotten, a live run is flushed, one more `$` is pending. */
  function EndRow(st: Scan): Scan {
    var st1 :=
      if st.last == DeadToken then st.(brun := 0)
      else if st.last == AliveToken then st.(runs := st.runs + [Run(Alive, st.orun)], orun := 0)
      else st;
    st1.(dollrun := st1.dollrun + 1)
  }

  /** The outer `for (cy = top; cy <= bottom; cy++)` loop of `writerle`, from row `cy`. */
  function ScanRows(u: Universe, cancel: nat -> bool, r: Rect, cy: int, st: Scan): Scan
    decreases r.bottom - cy + 1
  {
    if cy > r.bottom then st
    else
      var st0 := st.(last := NoToken, currcount := st.currcount + 1);
      var st1 := ScanRow(u, cancel, cy, r.left, r.right, st0);
      if st1.aborted then st1 else ScanRows(u, cancel, r, cy + 1, EndRow(st1))
  }

  /** The scanner's state when both loops of `writerle` have ended, normally or by an abort. */
  function ScanBody(u: Universe, cancel: nat -> bool, r: Rect): Scan {
    ScanRows(u, cancel, r, r.top, Initial)
  }

  /** The `AddRun` calls of the whole RLE body, ending with the bare `!` that replaces the last `$` run. */
  function BodyRuns(u: Universe, cancel: nat -> bool, r: Rect): seq<Run> {
    ScanBody(u, cancel, r).runs + [Run(EndOfPattern, 1)]
  }

  /** The never-cancelling progress collaborator. */
  function NeverCancel(acc: nat): bool {
    false
  }
}
