/**
 * The text of a rule-tree node as RuleTree.py builds and reads it: the level, then the
 * children, separated by single spaces. The writers build it in two ways (`" ".join` and
 * repeated `+= " " + str(...)`), and the readers take it apart with `split()` and `int`.
 */
module NodeText {
  import opened Wrappers
  import opened Decimal

  /** Characters of `s` up to (not including) its first space. */
  function WordLen(s: string): (k: nat)
    ensures k <= |s|
    ensures forall i :: 0 <= i < k ==> s[i] != ' '
    ensures k < |s| ==> s[k] == ' '
  {
    if |s| == 0 || s[0] == ' ' then 0 else 1 + WordLen(s[1..])
  }

  /** Python's `s.split()` on text whose only whitespace is the space character. */
  function Words(s: string): seq<string>
    decreases |s|
  {
    if |s| == 0 then []
    else if s[0] == ' ' then Words(s[1..])
    else
      var k := WordLen(s);
      [s[..k]] + Words(s[k..])
  }

  predicate NoSpace(w: string) {
    forall i :: 0 <= i < |w| ==> w[i] != ' '
  }

  /** Python's `int` on the words this model produces: an optional minus sign and decimal digits. */
  function ParseInt(w: string): Option<int> {
    if |w| > 1 && w[0] == '-' && AllDigits(w[1..]) then Some(0 - DigitsValue(w[1..]) as int)
    else if |w| > 0 && AllDigits(w) then Some(DigitsValue(w) as int)
    else None
  }

  /** `map(int, words)`; fails if any word is not a number. */
  function ParseInts(words: seq<string>): Option<seq<int>> {
    if |words| == 0 then Some([])
    else
      match ParseInt(words[0])
      case None => None
      case Some(v) =>
        match ParseInts(words[1..])
        case None => None
        case Some(vs) => Some([v] + vs)
  }

  /** `map(int, s.split()[1:])`: the children of a node, its leading level skipped. */
  function NodeChildren(s: string): Option<seq<int>> {
    var words := Words(s);
    if |words| == 0 then Some([]) else ParseInts(words[1..])
  }

  /** `" ".join(map(str, cs))`. */
  function JoinInts(cs: seq<int>): string {
    if |cs| == 0 then ""
    else if |cs| == 1 then IntToString(cs[0])
    else IntToString(cs[0]) + " " + JoinInts(cs[1..])
  }

  /** The same numbers each preceded by a space, as `n += " " + str(c)` builds them. */
  function SpacedInts(cs: seq<int>): string {
    if |cs| == 0 then "" else " " + IntToString(cs[0]) + SpacedInts(cs[1..])
  }

  /** A node written by `_add`, `_recreate` and `_setdefaults`: `str(at) + " " + " ".join(...)`. */
  function JoinedNode(level: nat, cs: seq<int>): string {
    NatToString(level) + " " + JoinInts(cs)
  }

  /** A node written by `_init_tree` and `_recur`: `str(at)`, then `" " + str(c)` per child. */
  function AppendedNode(level: nat, cs: seq<int>): string {
    NatToString(level) + SpacedInts(cs)
  }

  lemma IntToStringNoSpace(i: int)
    ensures NoSpace(IntToString(i)) && |IntToString(i)| > 0
  {
    var s := IntToString(i);
    if i < 0 {
      assert s == "-" + NatToString(-i);
      assert forall j :: 1 <= j < |s| ==> s[j] == NatToString(-i)[j - 1];
    }
  }

  /** `int(str(i)) == i`. */
  lemma ParseIntToString(i: int)
    ensures ParseInt(IntToString(i)) == Some(i)
  {
    var s := IntToString(i);
    if i < 0 {
      assert s[1..] == NatToString(-i);
      NatToStringValue(-i);
    } else {
      NatToStringValue(i);
    }
  }

  /** The two ways of writing a node agree as soon as it has a child. */
  lemma {:induction false} SpacedIsJoined(cs: seq<int>)
    requires |cs| > 0
    ensures SpacedInts(cs) == " " + JoinInts(cs)
  {
    var w := IntToString(cs[0]);
    if |cs| > 1 {
      SpacedIsJoined(cs[1..]);
      SpaceRegroup(w, JoinInts(cs[1..]));
    } else {
      assert SpacedInts(cs[1..]) == "";
      assert SpacedInts(cs) == " " + w + "";
    }
  }

  lemma SpaceRegroup(w: string, j: string)
    ensures " " + w + (" " + j) == " " + (w + " " + j)
  {
  }

  /**
   * The two ways of writing a node give the same text exactly when it has a child:
   * with none, joining leaves a trailing space that appending does not.
   */
  lemma JoinedIsAppended(level: nat, cs: seq<int>)
    ensures JoinedNode(level, cs) == AppendedNode(level, cs) <==> |cs| > 0
  {
    if |cs| > 0 {
      SpacedIsJoined(cs);
    } else {
      assert |JoinedNode(level, cs)| == |AppendedNode(level, cs)| + 1;
    }
  }

  /** `split()` of an appended node starts with the level. */
  lemma AppendedLevel(level: nat, cs: seq<int>)
    ensures |Words(AppendedNode(level, cs))| > 0 && Words(AppendedNode(level, cs))[0] == NatToString(level)
  {
    var l := NatToString(level);
    var rest := SpacedInts(cs);
    IntToStringNoSpace(level);
    assert IntToString(level) == l;
    if |cs| > 0 {
      assert rest[0] == ' ';
    }
    WordsWord(l, rest);
  }

  /** Leading spaces are skipped by `split()`. */
  lemma WordsSpace(rest: string)
    ensures Words(" " + rest) == Words(rest)
  {
    assert (" " + rest)[1..] == rest;
  }

  /** A word followed by nothing or by a space is split off whole. */
  lemma WordsWord(w: string, rest: string)
    requires |w| > 0 && NoSpace(w)
    requires |rest| == 0 || rest[0] == ' '
    ensures Words(w + rest) == [w] + Words(rest)
  {
    var s := w + rest;
    WordLenOf(w, rest);
    assert s[..|w|] == w;
    assert s[|w|..] == rest;
  }

  lemma {:induction false} WordLenOf(w: string, rest: string)
    requires NoSpace(w)
    requires |rest| == 0 || rest[0] == ' '
    ensures WordLen(w + rest) == |w|
  {
    if |w| > 0 {
      assert (w + rest)[1..] == w[1..] + rest;
      WordLenOf(w[1..], rest);
    } else {
      assert w + rest == rest;
    }
  }

  function IntWords(cs: seq<int>): seq<string> {
    if |cs| == 0 then [] else [IntToString(cs[0])] + IntWords(cs[1..])
  }

  lemma {:induction false} WordsSpaced(cs: seq<int>)
    ensures Words(SpacedInts(cs)) == IntWords(cs)
  {
    if |cs| > 0 {
      var w := IntToString(cs[0]);
      var rest := SpacedInts(cs[1..]);
      IntToStringNoSpace(cs[0]);
      assert SpacedInts(cs) == " " + (w + rest);
      WordsSpace(w + rest);
      if |cs| > 1 {
        assert rest[0] == ' ';
      }
      WordsWord(w, rest);
      WordsSpaced(cs[1..]);
    }
  }

  lemma {:induction false} ParseIntWords(cs: seq<int>)
    ensures ParseInts(IntWords(cs)) == Some(cs)
  {
    if |cs| > 0 {
      ParseIntToString(cs[0]);
      assert IntWords(cs)[1..] == IntWords(cs[1..]);
      ParseIntWords(cs[1..]);
      assert [cs[0]] + cs[1..] == cs;
    }
  }

  /** Reading back a node built by appending gives its children. */
  lemma AppendedChildren(level: nat, cs: seq<int>)
    ensures NodeChildren(AppendedNode(level, cs)) == Some(cs)
  {
    var l := NatToString(level);
    var rest := SpacedInts(cs);
    IntToStringNoSpace(level);
    assert IntToString(level) == l;
    if |cs| > 0 {
      assert rest[0] == ' ';
    }
    WordsWord(l, rest);
    WordsSpaced(cs);
    assert Words(AppendedNode(level, cs))[1..] == IntWords(cs);
    ParseIntWords(cs);
  }

  /** Reading back a node built by joining gives its children, even with no children at all. */
  lemma JoinedChildren(level: nat, cs: seq<int>)
    ensures NodeChildren(JoinedNode(level, cs)) == Some(cs)
  {
    if |cs| > 0 {
      JoinedIsAppended(level, cs);
      AppendedChildren(level, cs);
    } else {
      var l := NatToString(level);
      IntToStringNoSpace(level);
      assert IntToString(level) == l;
      assert JoinedNode(level, cs) == l + " ";
      WordsWord(l, " ");
      WordsSpace("");
      assert Words(JoinedNode(level, cs)) == [l];
    }
  }

  /** `split()` of a joined node starts with the level. */
  lemma JoinedLevel(level: nat, cs: seq<int>)
    ensures |Words(JoinedNode(level, cs))| > 0 && Words(JoinedNode(level, cs))[0] == NatToString(level)
  {
    var l := NatToString(level);
    IntToStringNoSpace(level);
    assert IntToString(level) == l;
    assert JoinedNode(level, cs) == l + (" " + JoinInts(cs));
    WordsWord(l, " " + JoinInts(cs));
  }
}
