/**
 * The meaning of an RLE body, as a conforming reader places cells: `b` advances the column,
 * `o` places live cells, `$` moves down rows and back to column 0, `!` ends the pattern.
 * This is the reference the writer is proved against.
 */
module RleRead {
  import opened Wrappers
  import opened LineEncoder
  import opened RleScan

  /** The reader's position and the live cells placed so far, relative to the pattern's corner. */
  datatype Cursor = Cursor(x: int, y: int, cells: set<Cell>)

  const Origin: Cursor := Cursor(0, 0, {})

  /** The cells `x .. x + n - 1` of row `y`. */
  function Span(x: int, y: int, n: nat): set<Cell> {
    if n == 0 then {} else Span(x, y, n - 1) + {Cell(x + n - 1, y)}
  }

  lemma {:induction false} SpanMember(x: int, y: int, n: nat)
    ensures forall z :: z in Span(x, y, n) <==> z.y == y && x <= z.x < x + n
  {
    if n > 0 {
      SpanMember(x, y, n - 1);
    }
  }

  /** The effect of one run on the reader. */
  function Step(c: Cursor, r: Run): Cursor {
    if r.token == Dead then c.(x := c.x + r.count)
    else if r.token == Alive then Cursor(c.x + r.count, c.y, c.cells + Span(c.x, c.y, r.count))
    else if r.token == EndOfLine then Cursor(0, c.y + r.count, c.cells)
    else c
  }

  /** The reader's state after all of `runs`, taken in order. */
  function Decode(runs: seq<Run>): Cursor {
    if |runs| == 0 then Origin else Step(Decode(runs[..|runs| - 1]), runs[|runs| - 1])
  }

  lemma DecodeAppend(xs: seq<Run>, a: Run)
    ensures Decode(xs + [a]) == Step(Decode(xs), a)
  {
    assert (xs + [a])[..|xs|] == xs;
  }

  /** Two adjacent live runs place the same cells as one merged run. */
  lemma AliveMerge(c: Cursor, n: nat)
    ensures Step(Step(c, Run(Alive, n)), Run(Alive, 1)) == Step(c, Run(Alive, n + 1))
  {
    SpanMember(c.x, c.y, n);
    SpanMember(c.x + n, c.y, 1);
    SpanMember(c.x, c.y, n + 1);
    assert Span(c.x, c.y, n) + Span(c.x + n, c.y, 1) == Span(c.x, c.y, n + 1);
  }

  /** Two adjacent `$` runs move the reader exactly as one merged run. */
  lemma EndOfLineMerge(c: Cursor, d: nat)
    ensures Step(Step(c, Run(EndOfLine, d)), Run(EndOfLine, 1)) == Step(c, Run(EndOfLine, d + 1))
  {
  }

  /** The text of an RLE body read back into cells; `None` if it is not made of runs. */
  function DecodeBody(body: string): Option<set<Cell>> {
    match ParseRuns(body)
    case None => None
    case Some(runs) => Some(Decode(runs).cells)
  }
}
