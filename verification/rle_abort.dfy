/**
 * Aborting a save through the progress dialog: the runs written before the abort are a prefix
 * of those an uninterrupted save writes, and a save that is never cancelled is never aborted.
 */
module RleAbort {
  import opened LineEncoder
  import opened RleScan

  /** One column-loop pass only ever appends to the runs already handed to `AddRun`. */
  lemma VisitGrows(st: Scan, skip: int, cancel: nat -> bool)
    ensures st.runs <= Visit(st, skip, cancel).runs
  {
  }

  /** With the same state, a pass that is not cancelled is the pass with the never-cancelling collaborator. */
  lemma VisitCancel(st: Scan, skip: int, cancel: nat -> bool)
    requires !st.aborted
    ensures !Visit(st, skip, NeverCancel).aborted
    ensures Visit(st, skip, cancel).runs == Visit(st, skip, NeverCancel).runs
    ensures !Visit(st, skip, cancel).aborted ==> Visit(st, skip, cancel) == Visit(st, skip, NeverCancel)
  {
  }

  lemma {:induction false} ScanRowGrows(u: Universe, cancel: nat -> bool, cy: int, cx: int, right: int, st: Scan)
    ensures st.runs <= ScanRow(u, cancel, cy, cx, right, st).runs
    decreases right - cx + 1
  {
    if cx <= right {
      var skip := ClampedSkip(u, cx, cy, right);
      var st3 := Visit(st, skip, cancel);
      VisitGrows(st, skip, cancel);
      if !st3.aborted {
        var next := if skip >= 0 then cx + skip else right + 1;
        ScanRowGrows(u, cancel, cy, next + 1, right, st3);
        PrefixTrans(st.runs, st3.runs, ScanRow(u, cancel, cy, next + 1, right, st3).runs);
      }
    }
  }

  lemma PrefixTrans(a: seq<Run>, b: seq<Run>, c: seq<Run>)
    requires a <= b && b <= c
    ensures a <= c
  {
    assert c[..|b|][..|a|] == c[..|a|];
  }

  /** The column loop of one row, cancelled or not: its runs are a prefix of the uncancelled loop's. */
  lemma {:induction false} ScanRowCancel(u: Universe, cancel: nat -> bool, cy: int, cx: int, right: int, st: Scan)
    requires !st.aborted
    ensures !ScanRow(u, NeverCancel, cy, cx, right, st).aborted
    ensures ScanRow(u, cancel, cy, cx, right, st).runs <= ScanRow(u, NeverCancel, cy, cx, right, st).runs
    ensures !ScanRow(u, cancel, cy, cx, right, st).aborted ==>
      ScanRow(u, cancel, cy, cx, right, st) == ScanRow(u, NeverCancel, cy, cx, right, st)
    decreases right - cx + 1
  {
    if cx <= right {
      var skip := ClampedSkip(u, cx, cy, right);
      var next := if skip >= 0 then cx + skip else right + 1;
      var sa := Visit(st, skip, cancel);
      var sb := Visit(st, skip, NeverCancel);
      VisitCancel(st, skip, cancel);
      ScanRowCancel(u, NeverCancel, cy, next + 1, right, sb);
      if sa.aborted {
        ScanRowGrows(u, NeverCancel, cy, next + 1, right, sb);
      } else {
        ScanRowCancel(u, cancel, cy, next + 1, right, sa);
      }
    }
  }

  lemma {:induction false} ScanRowsGrows(u: Universe, cancel: nat -> bool, r: Rect, cy: int, st: Scan)
    ensures st.runs <= ScanRows(u, cancel, r, cy, st).runs
    decreases r.bottom - cy + 1
  {
    if cy <= r.bottom {
      var st0 := st.(last := NoToken, currcount := st.currcount + 1);
      var st1 := ScanRow(u, cancel, cy, r.left, r.right, st0);
      ScanRowGrows(u, cancel, cy, r.left, r.right, st0);
      if !st1.aborted {
        ScanRowsGrows(u, cancel, r, cy + 1, EndRow(st1));
        PrefixTrans(st.runs, EndRow(st1).runs, ScanRows(u, cancel, r, cy + 1, EndRow(st1)).runs);
      }
    }
  }

  /** The row loop, cancelled or not: its runs are a prefix of the uncancelled loop's, and equal if not aborted. */
  lemma {:induction false} ScanRowsCancel(u: Universe, cancel: nat -> bool, r: Rect, cy: int, st: Scan)
    requires !st.aborted
    ensures !ScanRows(u, NeverCancel, r, cy, st).aborted
    ensures ScanRows(u, cancel, r, cy, st).runs <= ScanRows(u, NeverCancel, r, cy, st).runs
    ensures !ScanRows(u, cancel, r, cy, st).aborted ==>
      ScanRows(u, cancel, r, cy, st) == ScanRows(u, NeverCancel, r, cy, st)
    decreases r.bottom - cy + 1
  {
    if cy <= r.bottom {
      var st0 := st.(last := NoToken, currcount := st.currcount + 1);
      var sa := ScanRow(u, cancel, cy, r.left, r.right, st0);
      var sb := ScanRow(u, NeverCancel, cy, r.left, r.right, st0);
      ScanRowCancel(u, cancel, cy, r.left, r.right, st0);
      ScanRowsCancel(u, NeverCancel, r, cy + 1, EndRow(sb));
      if sa.aborted {
        ScanRowsGrows(u, NeverCancel, r, cy + 1, EndRow(sb));
        PrefixTrans(sa.runs, EndRow(sb).runs, ScanRows(u, NeverCancel, r, cy + 1, EndRow(sb)).runs);
      } else {
        ScanRowsCancel(u, cancel, r, cy + 1, EndRow(sa));
      }
    }
  }
}
