/**
 * The RLE line encoder of writepattern.cpp (`AddRun`): a pending run of one token becomes
 * its optional decimal count followed by the token character, and a newline is put first
 * whenever the run would push the current line past 70 characters.
 */
module LineEncoder {
  import opened Wrappers
  import opened Decimal

  /** The longest body line the writer produces. */
  const MaxLineLen: nat := 70

  /** The four RLE token characters. */
  const Dead: char := 'b'
  const Alive: char := 'o'
  const EndOfLine: char := '$'
  const EndOfPattern: char := '!'

  predicate IsToken(c: char) {
    c == Dead || c == Alive || c == EndOfLine || c == EndOfPattern
  }

  /** One `AddRun` call: token character and run count. */
  datatype Run = Run(token: char, count: nat)

  /** A run the writer can emit: a token character and a positive count. */
  predicate WellFormedRun(r: Run) {
    IsToken(r.token) && r.count >= 1
  }

  predicate WellFormedRuns(runs: seq<Run>) {
    forall i :: 0 <= i < |runs| ==> WellFormedRun(runs[i])
  }

  /** The count prefix `AddRun` writes: nothing for a run of 0 or 1, else `%u` of the run. */
  function CountText(run: nat): string {
    if run > 1 then NatToString(run) else ""
  }

  /** Column reached after writing `s` from column `col`; a newline resets the column to 0. */
  function ColumnAfter(s: string, col: nat): nat
  {
    if |s| == 0 then col else ColumnAfter(s[1..], if s[0] == '\n' then 0 else col + 1)
  }

  /** Writing `s` from column `col` never takes any line beyond `width` characters. */
  predicate WithinWidth(s: string, col: nat, width: nat)
  {
    col <= width && (|s| == 0 || WithinWidth(s[1..], if s[0] == '\n' then 0 else col + 1, width))
  }

  predicate NoNewline(s: string) {
    forall i :: 0 <= i < |s| ==> s[i] != '\n'
  }

  /** What one `AddRun` call leaves behind: the characters put, the run and the line length. */
  datatype AddRunResult = AddRunResult(text: string, run: nat, linelen: nat)

  /**
   * writepattern.cpp `AddRun`: a newline goes first exactly when `linelen + numlen + 1 > 70`;
   * the run count is shown only when it exceeds 1; the run is reset to 0.
   */
  function AddRun(ch: char, run: nat, linelen: nat): (r: AddRunResult)
    requires ch != '\n'
    ensures r.run == 0
    ensures r.linelen == (if linelen + |CountText(run)| + 1 > MaxLineLen then 0 else linelen) + |CountText(run)| + 1
    ensures (|r.text| > 0 && r.text[0] == '\n') <==> linelen + |CountText(run)| + 1 > MaxLineLen
    ensures |r.text| >= 1 && r.text[|r.text| - 1] == ch
  {
    var numstr := CountText(run);
    var wrap := linelen + |numstr| + 1 > MaxLineLen;
    var text := (if wrap then "\n" else "") + (numstr + [ch]);
    AddRunResult(text, 0, (if wrap then 0 else linelen) + |numstr| + 1)
  }

  /**
   * The text of one `AddRun` call: `linelen` is the column it ends at, only its first character
   * can be a newline, and it keeps within 70 columns when the count does.
   */
  lemma AddRunLayout(ch: char, run: nat, linelen: nat)
    requires ch != '\n'
    ensures var r := AddRun(ch, run, linelen);
      && ColumnAfter(r.text, linelen) == r.linelen
      && (forall i :: 1 <= i < |r.text| ==> r.text[i] != '\n')
      && (linelen <= MaxLineLen && |CountText(run)| < MaxLineLen ==> WithinWidth(r.text, linelen, MaxLineLen))
  {
    var numstr := CountText(run);
    var wrap := linelen + |numstr| + 1 > MaxLineLen;
    RunTextFacts(numstr + [ch], wrap, linelen);
  }

  lemma RunTextFacts(body: string, wrap: bool, linelen: nat)
    requires NoNewline(body) && |body| >= 1
    ensures var text := (if wrap then "\n" else "") + body;
      && ColumnAfter(text, linelen) == (if wrap then 0 else linelen) + |body|
      && (forall i :: 1 <= i < |text| ==> text[i] != '\n')
      && (WithinWidth(text, linelen, MaxLineLen) <==> linelen <= MaxLineLen && (if wrap then 0 else linelen) + |body| <= MaxLineLen)
  {
    var text := (if wrap then "\n" else "") + body;
    ColumnNoNewline(body, if wrap then 0 else linelen);
    WidthNoNewline(body, if wrap then 0 else linelen, MaxLineLen);
    if wrap {
      assert text[1..] == body;
      assert ColumnAfter(text, linelen) == ColumnAfter(body, 0);
      assert WithinWidth(text, linelen, MaxLineLen) <==> linelen <= MaxLineLen && WithinWidth(body, 0, MaxLineLen);
    } else {
      assert text == body;
    }
  }

  lemma {:induction false} ColumnNoNewline(s: string, col: nat)
    requires NoNewline(s)
    ensures ColumnAfter(s, col) == col + |s|
  {
    if |s| > 0 {
      ColumnNoNewline(s[1..], col + 1);
    }
  }

  lemma {:induction false} WidthNoNewline(s: string, col: nat, width: nat)
    requires NoNewline(s)
    ensures WithinWidth(s, col, width) <==> col + |s| <= width
  {
    if |s| > 0 {
      WidthNoNewline(s[1..], col + 1, width);
    }
  }

  lemma {:induction false} ColumnAppend(a: string, b: string, col: nat)
    ensures ColumnAfter(a + b, col) == ColumnAfter(b, ColumnAfter(a, col))
  {
    if |a| > 0 {
      assert (a + b)[1..] == a[1..] + b;
      ColumnAppend(a[1..], b, if a[0] == '\n' then 0 else col + 1);
    } else {
      assert a + b == b;
    }
  }

  lemma {:induction false} WidthAppend(a: string, b: string, col: nat, width: nat)
    ensures WithinWidth(a + b, col, width) <==> WithinWidth(a, col, width) && WithinWidth(b, ColumnAfter(a, col), width)
  {
    if |a| > 0 {
      assert (a + b)[1..] == a[1..] + b;
      WidthAppend(a[1..], b, if a[0] == '\n' then 0 else col + 1, width);
    } else {
      assert a + b == b;
    }
  }

  /** The result of replaying a sequence of `AddRun` calls, threading `linelen` through them. */
  datatype Encoded = Encoded(text: string, linelen: nat)

  function Encode(runs: seq<Run>, linelen: nat): Encoded
    requires forall i :: 0 <= i < |runs| ==> runs[i].token != '\n'
  {
    if |runs| == 0 then Encoded("", linelen)
    else
      var r := AddRun(runs[0].token, runs[0].count, linelen);
      var rest := Encode(runs[1..], r.linelen);
      Encoded(r.text + rest.text, rest.linelen)
  }

  /** The encoding of a non-empty run list ends with the last run's token. */
  lemma {:induction false} EncodeEndsWithToken(runs: seq<Run>, linelen: nat)
    requires WellFormedRuns(runs) && |runs| > 0
    ensures var t := Encode(runs, linelen).text; |t| > 0 && t[|t| - 1] == runs[|runs| - 1].token
  {
    var r := AddRun(runs[0].token, runs[0].count, linelen);
    if |runs| > 1 {
      EncodeEndsWithToken(runs[1..], r.linelen);
    } else {
      assert Encode(runs[1..], r.linelen).text == "";
    }
  }

  /** Counts short enough that a single run never needs a line to itself beyond 70 columns. */
  predicate ShortCounts(runs: seq<Run>) {
    forall i :: 0 <= i < |runs| ==> |CountText(runs[i].count)| < MaxLineLen
  }

  /**
   * Every body line the encoder writes is at most 70 characters long, and `linelen` is
   * exactly the length of the last, unfinished line.
   */
  lemma {:induction false} EncodeWithinWidth(runs: seq<Run>, linelen: nat)
    requires WellFormedRuns(runs) && ShortCounts(runs)
    requires linelen <= MaxLineLen
    ensures WithinWidth(Encode(runs, linelen).text, linelen, MaxLineLen)
    ensures ColumnAfter(Encode(runs, linelen).text, linelen) == Encode(runs, linelen).linelen
    ensures Encode(runs, linelen).linelen <= MaxLineLen
  {
    if |runs| > 0 {
      var r := AddRun(runs[0].token, runs[0].count, linelen);
      AddRunLayout(runs[0].token, runs[0].count, linelen);
      EncodeWithinWidth(runs[1..], r.linelen);
      var rest := Encode(runs[1..], r.linelen);
      WidthAppend(r.text, rest.text, linelen, MaxLineLen);
      ColumnAppend(r.text, rest.text, linelen);
    }
  }

  // ---------------------------------------------------------------------------
  // Reading the body back

  /** Number of leading decimal digits of `s`. */
  function DigitPrefix(s: string): (k: nat)
    ensures k <= |s|
    ensures AllDigits(s[..k])
    ensures k < |s| ==> !IsDigit(s[k])
  {
    if |s| == 0 || !IsDigit(s[0]) then 0
    else
      var k := 1 + DigitPrefix(s[1..]);
      assert s[..k] == [s[0]] + s[1..][..k - 1];
      k
  }

  /**
   * An RLE body reader: newlines are skipped; a run is an optional decimal count followed by
   * one token character; a missing count means 1.
   */
  function ParseRuns(s: string): Option<seq<Run>>
    decreases |s|
  {
    if |s| == 0 then Some([])
    else if s[0] == '\n' then ParseRuns(s[1..])
    else
      var k := DigitPrefix(s);
      if k == |s| || !IsToken(s[k]) then None
      else
        var count := if k == 0 then 1 else DigitsValue(s[..k]);
        Cons(Run(s[k], count), ParseRuns(s[k + 1..]))
  }

  /** `r` in front of a parsed run list; a failed parse stays failed. */
  function Cons(r: Run, rest: Option<seq<Run>>): Option<seq<Run>> {
    match rest
    case None => None
    case Some(rs) => Some([r] + rs)
  }

  lemma {:induction false} DigitPrefixOf(d: string, t: string)
    requires AllDigits(d)
    requires |t| > 0 && !IsDigit(t[0])
    ensures DigitPrefix(d + t) == |d|
  {
    if |d| > 0 {
      assert (d + t)[1..] == d[1..] + t;
      DigitPrefixOf(d[1..], t);
    } else {
      assert d + t == t;
    }
  }

  /** Reading one run's text back yields the run, whatever follows it. */
  lemma RunTextParses(r: Run, rest: string)
    requires WellFormedRun(r)
    ensures ParseRuns(CountText(r.count) + [r.token] + rest) ==
      Cons(r, ParseRuns(rest))
  {
    var s := CountText(r.count) + [r.token] + rest;
    var d := CountText(r.count);
    assert s == d + ([r.token] + rest);
    DigitPrefixOf(d, [r.token] + rest);
    assert s[|d|] == r.token;
    assert s[|d| + 1..] == rest;
    if r.count > 1 {
      assert s[..|d|] == d;
      NatToStringValue(r.count);
    } else {
      assert r.count == 1;
    }
  }

  /** Reading back one `AddRun` text, newline or not, yields its run before whatever follows. */
  lemma AddRunParses(r: Run, linelen: nat, rest: string)
    requires WellFormedRun(r)
    ensures ParseRuns(AddRun(r.token, r.count, linelen).text + rest) == Cons(r, ParseRuns(rest))
  {
    var body := CountText(r.count) + [r.token];
    var t := AddRun(r.token, r.count, linelen).text;
    RunTextParses(r, rest);
    if linelen + |CountText(r.count)| + 1 > MaxLineLen {
      assert t == "\n" + body;
      AppendAssoc("\n", body, rest);
      ParseSkipsNewline(body + rest);
    } else {
      assert t == body;
    }
  }

  /** The body reader steps over a newline. */
  lemma ParseSkipsNewline(x: string)
    ensures ParseRuns("\n" + x) == ParseRuns(x)
  {
    var s := "\n" + x;
    assert s[0] == '\n' && s[1..] == x;
  }

  /** `runs` in front of a parsed run list; a failed parse stays failed. */
  function Prefix(runs: seq<Run>, rest: Option<seq<Run>>): Option<seq<Run>> {
    match rest
    case None => None
    case Some(rs) => Some(runs + rs)
  }

  /** The body reader recovers exactly the runs the encoder was given (newlines are transparent). */
  lemma {:induction false} ParseEncode(runs: seq<Run>, linelen: nat, tail: string)
    requires WellFormedRuns(runs)
    ensures ParseRuns(Encode(runs, linelen).text + tail) == Prefix(runs, ParseRuns(tail))
  {
    if |runs| == 0 {
      assert Encode(runs, linelen).text + tail == tail;
      match ParseRuns(tail)
      case None =>
      case Some(rs) => assert runs + rs == rs;
    } else {
      var r := AddRun(runs[0].token, runs[0].count, linelen);
      ParseEncode(runs[1..], r.linelen, tail);
      ParseEncodeStep(runs, linelen, tail);
    }
  }

  /** The inductive step of `ParseEncode`: the first run's text, then the rest. */
  lemma ParseEncodeStep(runs: seq<Run>, linelen: nat, tail: string)
    requires WellFormedRuns(runs) && |runs| > 0
    requires ParseRuns(Encode(runs[1..], AddRun(runs[0].token, runs[0].count, linelen).linelen).text + tail)
      == Prefix(runs[1..], ParseRuns(tail))
    ensures ParseRuns(Encode(runs, linelen).text + tail) == Prefix(runs, ParseRuns(tail))
  {
    var r := AddRun(runs[0].token, runs[0].count, linelen);
    var rest := Encode(runs[1..], r.linelen);
    EncodeFirst(runs, linelen, tail);
    AddRunParses(runs[0], linelen, rest.text + tail);
    ConsPrefix(runs, ParseRuns(tail));
  }

  /** The encoding of `runs`, then `tail`: the first run's text, then the others' and `tail`. */
  lemma EncodeFirst(runs: seq<Run>, linelen: nat, tail: string)
    requires WellFormedRuns(runs) && |runs| > 0
    ensures var r := AddRun(runs[0].token, runs[0].count, linelen);
      Encode(runs, linelen).text + tail == r.text + (Encode(runs[1..], r.linelen).text + tail)
  {
    var r := AddRun(runs[0].token, runs[0].count, linelen);
    var rest := Encode(runs[1..], r.linelen);
    EncodeUnfold(runs, linelen);
    AppendAssoc(r.text, rest.text, tail);
  }

  lemma EncodeUnfold(runs: seq<Run>, linelen: nat)
    requires WellFormedRuns(runs) && |runs| > 0
    ensures var r := AddRun(runs[0].token, runs[0].count, linelen);
      Encode(runs, linelen).text == r.text + Encode(runs[1..], r.linelen).text
  {
  }

  lemma AppendAssoc(a: string, b: string, c: string)
    ensures (a + b) + c == a + (b + c)
  {
  }

  lemma ConsPrefix(runs: seq<Run>, p: Option<seq<Run>>)
    requires |runs| > 0
    ensures Cons(runs[0], Prefix(runs[1..], p)) == Prefix(runs, p)
  {
    match p
    case None =>
    case Some(rs) => assert [runs[0]] + (runs[1..] + rs) == runs + rs;
  }

  /** A run of length at most 1 is written as its bare token; a longer run as its decimal count and token. */
  lemma RunText(ch: char, run: nat, linelen: nat)
    requires ch != '\n'
    ensures var t := AddRun(ch, run, linelen).text;
      var body := if |t| > 0 && t[0] == '\n' then t[1..] else t;
      (run <= 1 ==> body == [ch]) &&
      (run > 1 ==> body[|body| - 1] == ch && AllDigits(body[..|body| - 1]) && DigitsValue(body[..|body| - 1]) == run)
  {
    if run > 1 {
      NatToStringValue(run);
      var t := AddRun(ch, run, linelen).text;
      var body := if |t| > 0 && t[0] == '\n' then t[1..] else t;
      assert body == NatToString(run) + [ch];
      assert body[..|body| - 1] == NatToString(run);
    }
  }
}
