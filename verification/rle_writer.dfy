/**
 * writepattern.cpp `writerle`: the header line, the body produced by the row scanner and
 * `AddRun`, the final bare `!` and newline, all written through the output buffer; and the
 * fixed text written for an empty pattern.
 */
module RleWriter {
  import opened Wrappers
  import opened Decimal
  import opened LineEncoder
  import opened OutBuffer
  import opened RleScan
  import opened RleRead
  import opened RleProofs
  import opened RleAbort

  /** Nothing to scan: the universe has no live cell or the rectangle is empty. */
  predicate WritesEmpty(u: Universe, r: Rect) {
    IsEmpty(u) || Degenerate(r)
  }

  /** What `writerle` writes for an empty pattern (with `fprintf`, bypassing the buffer). */
  function EmptyRle(rule: string): string {
    "x = 0, y = 0, rule = " + rule + "\n!\n"
  }

  /** `wd` and `ht` are `unsigned int`: the difference is taken modulo 2^32. */
  function Width(r: Rect): nat {
    (r.right - r.left + 1) % UIntRange
  }

  function Height(r: Rect): nat {
    (r.bottom - r.top + 1) % UIntRange
  }

  /** The header line `x = wd, y = ht, rule = R`, followed by a newline. */
  function RleHeader(r: Rect, rule: string): string {
    "x = " + NatToString(Width(r)) + ", y = " + NatToString(Height(r)) + ", rule = " + rule + "\n"
  }

  /** The rectangle's corners are C `int`s. */
  predicate Int32Rect(r: Rect) {
    && -0x8000_0000 <= r.top < 0x8000_0000
    && -0x8000_0000 <= r.left < 0x8000_0000
    && -0x8000_0000 <= r.bottom < 0x8000_0000
    && -0x8000_0000 <= r.right < 0x8000_0000
  }

  /** The runs of a non-degenerate scan, followed by `!`, are all writable by `AddRun`. */
  lemma BodyRunsWellFormed(u: Universe, cancel: nat -> bool, r: Rect)
    requires !Degenerate(r)
    ensures WellFormedRuns(BodyRuns(u, cancel, r))
    ensures forall i :: 0 <= i < |BodyRuns(u, cancel, r)| ==> BodyRuns(u, cancel, r)[i].count <= Bound(r) + 1
  {
    var st := ScanBody(u, cancel, r);
    ScanBodyCorrect(u, cancel, r);
    CanonicalRuns(st.runs);
    BoundedRuns(st.runs, Bound(r));
  }

  /** Every `AddRun` call of the body replayed from `linelen == 0`; the header does not count towards it. */
  function BodyText(u: Universe, cancel: nat -> bool, r: Rect): string
    requires !Degenerate(r)
  {
    BodyRunsWellFormed(u, cancel, r);
    Encode(BodyRuns(u, cancel, r), 0).text
  }

  /** The body: the runs, then the newline put after `!`. */
  function RleBody(u: Universe, cancel: nat -> bool, r: Rect): string
    requires !Degenerate(r)
  {
    BodyText(u, cancel, r) + "\n"
  }

  /** The file `writerle` produces, and whether the progress dialog's abort ended the scan early. */
  datatype RleResult = RleResult(file: string, aborted: bool)

  function RleFile(u: Universe, cancel: nat -> bool, r: Rect): RleResult {
    if WritesEmpty(u, r) then RleResult(EmptyRle(u.rule), false)
    else RleResult(RleHeader(r, u.rule) + RleBody(u, cancel, r), ScanBody(u, cancel, r).aborted)
  }

  /**
   * `writerle` itself: the header is put into the buffer, the body goes through `putchar`, and
   * the used part of the buffer is written at the end. The header must fit in the buffer.
   */
  method WriteRle(u: Universe, cancel: nat -> bool, r: Rect, stale: seq<char>) returns (res: RleResult)
    requires |stale| == BuffSize
    requires !WritesEmpty(u, r) ==> |RleHeader(r, u.rule)| + 1 <= BuffSize
    ensures res == RleFile(u, cancel, r)
    ensures WritesEmpty(u, r) ==> res.file == EmptyRle(u.rule) && !res.aborted
    ensures !WritesEmpty(u, r) ==> |res.file| >= 2 && res.file[|res.file| - 2..] == "!\n"
  {
    if WritesEmpty(u, r) {
      res := RleResult(EmptyRle(u.rule), false);
    } else {
      var body := RleBody(u, cancel, r);
      var file := BufferedFile(stale, RleHeader(r, u.rule), body);
      res := RleResult(file, ScanBody(u, cancel, r).aborted);
      BodyEndsWithBang(u, cancel, r);
      assert res.file[|res.file| - 2..] == body[|body| - 2..];
    }
  }

  /** The body always ends with the bare `!` and a newline, even after an abort. */
  lemma BodyEndsWithBang(u: Universe, cancel: nat -> bool, r: Rect)
    requires !Degenerate(r)
    ensures var body := RleBody(u, cancel, r); |body| >= 2 && body[|body| - 2..] == "!\n"
  {
    var runs := BodyRuns(u, cancel, r);
    BodyRunsWellFormed(u, cancel, r);
    EncodeEndsWithToken(runs, 0);
    var t := BodyText(u, cancel, r);
    assert t[|t| - 1] == EndOfPattern;
    BangNewline(t);
  }

  /** Text ending in `!`, with a newline put after it, ends in `!` and the newline. */
  lemma BangNewline(t: string)
    requires |t| > 0 && t[|t| - 1] == EndOfPattern
    ensures var b := t + "\n"; |b| >= 2 && b[|b| - 2..] == "!\n"
  {
    var b := t + "\n";
    assert b[|b| - 2..] == [b[|b| - 2], b[|b| - 1]];
  }

  /** An empty pattern or an empty rectangle gives the fixed zero-size header and a bare `!`. */
  lemma EmptyPattern(u: Universe, cancel: nat -> bool, r: Rect)
    requires WritesEmpty(u, r)
    ensures RleFile(u, cancel, r).file == "x = 0, y = 0, rule = " + u.rule + "\n!\n"
    ensures !RleFile(u, cancel, r).aborted
  {
  }

  /**
   * Reading the body back places exactly the live cells of the rectangle, relative to its
   * top-left corner, provided the save was not aborted.
   */
  lemma RleRoundTrip(u: Universe, cancel: nat -> bool, r: Rect)
    requires !WritesEmpty(u, r)
    requires !RleFile(u, cancel, r).aborted
    ensures DecodeBody(RleBody(u, cancel, r)) == Some(Window(u, r))
  {
    var runs := BodyRuns(u, cancel, r);
    var st := ScanBody(u, cancel, r);
    BodyRunsWellFormed(u, cancel, r);
    ScanBodyCorrect(u, cancel, r);
    ParseEncode(runs, 0, "\n");
    ParseNewlineOnly();
    assert runs + [] == runs;
    DecodeAppend(st.runs, Run(EndOfPattern, 1));
  }

  /** The newline after `!` reads as no runs. */
  lemma ParseNewlineOnly()
    ensures ParseRuns("\n") == Some([])
  {
    assert "\n"[1..] == "";
  }

  /**
   * The body reads back as canonical runs followed by `!`: run counts are positive, no two
   * adjacent runs share a token (blank rows collapse into one `$` run), a dead run is always
   * followed by a live run (no trailing dead cells), and, when not aborted, the run before
   * `!` is a live run (the final `$` run is dropped).
   */
  lemma RleCanonicalBody(u: Universe, cancel: nat -> bool, r: Rect)
    requires !Degenerate(r)
    ensures exists runs ::
      && ParseRuns(RleBody(u, cancel, r)) == Some(runs + [Run(EndOfPattern, 1)])
      && Canonical(runs)
      && Bounded(runs, Bound(r))
      && (!ScanBody(u, cancel, r).aborted ==> EndsAlive(runs))
  {
    var runs := BodyRuns(u, cancel, r);
    var st := ScanBody(u, cancel, r);
    BodyRunsWellFormed(u, cancel, r);
    ScanBodyCorrect(u, cancel, r);
    ParseEncode(runs, 0, "\n");
    assert "\n"[1..] == "";
    assert ParseRuns("\n") == Some([]);
    assert runs + [] == runs;
    assert ParseRuns(RleBody(u, cancel, r)) == Some(st.runs + [Run(EndOfPattern, 1)]);
  }

  /** With `int` corners, no line of the body is longer than 70 characters. */
  lemma RleLineWidth(u: Universe, cancel: nat -> bool, r: Rect)
    requires !Degenerate(r) && Int32Rect(r)
    ensures WithinWidth(BodyText(u, cancel, r), 0, MaxLineLen)
  {
    var runs := BodyRuns(u, cancel, r);
    BodyRunsWellFormed(u, cancel, r);
    assert Bound(r) + 1 < Pow10(10) by {
      assert Pow10(10) == 10 * 10 * 10 * 10 * 10 * 10 * 10 * 10 * 10 * 10 * Pow10(0);
    }
    forall i | 0 <= i < |runs|
      ensures |CountText(runs[i].count)| < MaxLineLen
    {
      if runs[i].count > 1 {
        NatToStringLength(runs[i].count, 10);
      }
    }
    EncodeWithinWidth(runs, 0);
  }

  /**
   * An aborted save writes a prefix of the runs of the uninterrupted save and still ends
   * with `!`; a save that is not aborted writes exactly the uninterrupted body.
   */
  lemma RleTruncated(u: Universe, cancel: nat -> bool, r: Rect)
    requires !Degenerate(r)
    ensures !RleFile(u, NeverCancel, r).aborted
    ensures ScanBody(u, cancel, r).runs <= ScanBody(u, NeverCancel, r).runs
    ensures !RleFile(u, cancel, r).aborted ==> RleFile(u, cancel, r) == RleFile(u, NeverCancel, r)
  {
    ScanRowsCancel(u, cancel, r, r.top, Initial);
  }

  /** A 3-by-3 rectangle whose only live cell is its centre, under rule `B3/S23`. */
  const CentreUniverse: Universe := Universe([Cell(1, 1)], "B3/S23")
  const CentreRect: Rect := Rect(0, 0, 2, 2)

  /** The scan of the fixture: one `$` for the blank top row, the dead cell, the live cell. */
  lemma CentreCellScan(cancel: nat -> bool)
    ensures ScanBody(CentreUniverse, cancel, CentreRect).runs == [Run(EndOfLine, 1), Run(Dead, 1), Run(Alive, 1)]
  {
    var u := CentreUniverse;
    var r := CentreRect;
    var s0 := Scan([], 0, 0, 0, NoToken, 1, 0, false);
    assert ClampedSkip(u, 0, 0, 2) == -1;
    assert ScanRow(u, cancel, 0, 0, 2, s0) == s0;
    var s1 := Scan([], 0, 0, 1, NoToken, 2, 0, false);
    assert ClampedSkip(u, 0, 1, 2) == 1;
    var s2 := Scan([Run(EndOfLine, 1), Run(Dead, 1)], 0, 1, 0, AliveToken, 3, 0, false);
    assert Visit(s1, 1, cancel) == s2;
    assert ClampedSkip(u, 2, 1, 2) == -1;
    assert ScanRow(u, cancel, 1, 2, 2, s2) == s2;
    assert ScanRow(u, cancel, 1, 0, 2, s1) == s2;
    var s3 := Scan([Run(EndOfLine, 1), Run(Dead, 1), Run(Alive, 1)], 0, 0, 1, AliveToken, 3, 0, false);
    assert EndRow(s2) == s3;
    var s4 := s3.(last := NoToken, currcount := 4);
    assert ClampedSkip(u, 0, 2, 2) == -1;
    assert ScanRow(u, cancel, 2, 0, 2, s4) == s4;
    assert ScanRows(u, cancel, r, 3, EndRow(s4)) == EndRow(s4);
    assert ScanRows(u, cancel, r, 2, EndRow(s2)) == EndRow(s4);
    assert ScanRows(u, cancel, r, 1, EndRow(s0)) == EndRow(s4);
  }

  /** The fixture's runs, bare tokens all, fit on one line. */
  lemma CentreCellEncode()
    ensures Encode([Run(EndOfLine, 1), Run(Dead, 1), Run(Alive, 1), Run(EndOfPattern, 1)], 0).text == "$bo!"
  {
    var r3: seq<Run> := [Run(EndOfPattern, 1)];
    var r2 := [Run(Alive, 1)] + r3;
    var r1 := [Run(Dead, 1)] + r2;
    var r0 := [Run(EndOfLine, 1)] + r1;
    BareEncode(EndOfPattern, [], 3);
    BareEncode(Alive, r3, 2);
    BareEncode(Dead, r2, 1);
    BareEncode(EndOfLine, r1, 0);
    assert r0 == [Run(EndOfLine, 1), Run(Dead, 1), Run(Alive, 1), Run(EndOfPattern, 1)];
  }

  /** A run of one cell in front, on a line with room for it, is written as its bare token. */
  lemma BareEncode(ch: char, rest: seq<Run>, linelen: nat)
    requires IsToken(ch) && linelen < MaxLineLen && WellFormedRuns(rest)
    ensures WellFormedRuns([Run(ch, 1)] + rest)
    ensures var e := Encode(rest, linelen + 1);
      Encode([Run(ch, 1)] + rest, linelen) == Encoded([ch] + e.text, e.linelen)
  {
    var runs := [Run(ch, 1)] + rest;
    assert runs[0] == Run(ch, 1) && runs[1..] == rest;
    assert CountText(1) == "";
    assert AddRun(ch, 1, linelen) == AddRunResult([ch], 0, linelen + 1);
  }

  /** The whole file for the fixture, header and body. */
  lemma CentreCellFixture(cancel: nat -> bool)
    ensures RleFile(CentreUniverse, cancel, CentreRect).file == "x = 3, y = 3, rule = B3/S23\n$bo!\n"
  {
    CentreCellScan(cancel);
    CentreCellEncode();
    var runs := [Run(EndOfLine, 1), Run(Dead, 1), Run(Alive, 1), Run(EndOfPattern, 1)];
    assert BodyRuns(CentreUniverse, cancel, CentreRect) == runs;
    assert BodyText(CentreUniverse, cancel, CentreRect) == "$bo!";
    CentreCellHeader();
  }

  lemma CentreCellHeader()
    ensures RleHeader(CentreRect, "B3/S23") == "x = 3, y = 3, rule = B3/S23\n"
  {
    assert Width(CentreRect) == 3 && Height(CentreRect) == 3;
    assert NatToString(3) == "3";
  }
}
