/**
 * EmulateHexagonal.py: a hexagonal-neighbourhood rule emulated on the Moore neighbourhood. Each
 * hexagonal transition becomes one rule of a 9-input rule tree whose two unused diagonal
 * inputs are unrestricted, the icons are strips of hexagon masks, and the rule is named after
 * the input file.
 */
module Hexagonal {
  import opened Wrappers
  import opened NodeStore
  import opened RuleTree
  import opened RuleTreeProofs

  // ---------------------------------------------------------------------------
  // HexagonalTransitionsToRuleTree

  /** `list(range(n))`. */
  function Range(n: nat): (r: seq<int>)
    ensures |r| == n && forall i :: 0 <= i < n ==> r[i] == i
  {
    seq(n, i => i)
  }

  /** The Moore neighbourhood has 8 neighbours, read in the order C,S,E,W,N,SE,SW,NE,NW. */
  const MooreNeighbors: nat := 8

  /**
   * A hexagonal transition lists the allowed states of C, N, E, SE, S, W and NW, then the
   * output (as the first element of a list).
   */
  predicate IsTransition(t: seq<seq<int>>) {
    |t| >= 8 && |t[7]| >= 1
  }

  /** The Moore inputs of one hexagonal transition: SW and NE may hold any state. */
  function MooreInputs(t: seq<seq<int>>, numStates: nat): seq<seq<int>>
    requires IsTransition(t)
  {
    [t[0], t[4], t[2], t[5], t[1], t[3], Range(numStates), Range(numStates), t[6]]
  }

  function Output(t: seq<seq<int>>): int
    requires IsTransition(t)
  {
    t[7][0]
  }

  /** Every one of `ts` is a hexagonal transition. */
  predicate AllTransitions(ts: seq<seq<seq<int>>>) {
    forall i :: 0 <= i < |ts| ==> IsTransition(ts[i])
  }

  /** A rule as `add_rule` takes it: the allowed values of each input, and the output. */
  datatype Rule = Rule(inputs: seq<seq<int>>, output: int)

  /** The rules the `for t in transitions` loop adds, in order. */
  function MooreRules(ts: seq<seq<seq<int>>>, numStates: nat): (rules: seq<Rule>)
    requires AllTransitions(ts)
    ensures |rules| == |ts|
  {
    if |ts| == 0 then []
    else [Rule(MooreInputs(ts[0], numStates), Output(ts[0]))] + MooreRules(ts[1..], numStates)
  }

  /** `add_rule` of each rule in turn; the first one refused stops the script with its message. */
  function AddRules(t: Tree, rules: seq<Rule>): (r: Result<Tree>)
    requires TreeOk(t)
    ensures r.Ok? ==> TreeOk(r.value) && r.value.numStates == t.numStates && r.value.numNeighbors == t.numNeighbors
    decreases |rules|
  {
    if |rules| == 0 then Ok(t)
    else
      match AddRule(t, rules[0].inputs, rules[0].output)
      case Err(e) => Err(e)
      case Ok(t1) => AddRules(t1, rules[1..])
  }

  /** `HexagonalTransitionsToRuleTree`: a tree of 8 neighbours holding every transition, then `write`. */
  function HexagonalTree(numStates: nat, ts: seq<seq<seq<int>>>): Result<Saved>
    requires AllTransitions(ts)
  {
    match AddRules(NewTree(numStates, MooreNeighbors), MooreRules(ts, numStates))
    case Err(e) => Err(e)
    case Ok(t) => Ok(Write(t))
  }

  /** The output of the first of `rules` covering `ins`, or `e` if none does. */
  function FirstOutput(rules: seq<Rule>, ins: seq<int>, n: nat, e: int): int
    requires n <= |ins| && forall i :: 0 <= i < |rules| ==> |rules[i].inputs| == n
  {
    if |rules| == 0 then e
    else if Matches(ins, rules[0].inputs, n) then rules[0].output
    else FirstOutput(rules[1..], ins, n, e)
  }

  /** Every rule sets a state, never the "unset" marker. */
  predicate OutputsSet(rules: seq<Rule>) {
    forall i :: 0 <= i < |rules| ==> rules[i].output >= 0
  }

  /** Rule `r` is refused by `add_rule` on a tree of `k` states and `n` inputs. */
  predicate Refused(r: Rule, k: nat, n: nat) {
    |r.inputs| != n || AddFails(r.inputs, k, n)
  }

  /** What the rules after the first say, read back on all of them. */
  lemma RulesTail(rules: seq<Rule>, k: nat, n: nat)
    requires |rules| > 0
    ensures OutputsSet(rules) ==> OutputsSet(rules[1..])
    ensures (exists i :: 0 <= i < |rules| && Refused(rules[i], k, n)) <==>
      Refused(rules[0], k, n) || exists i :: 0 <= i < |rules[1..]| && Refused(rules[1..][i], k, n)
    ensures |rules[0].inputs| == n && (forall i :: 0 <= i < |rules[1..]| ==> |rules[1..][i].inputs| == n) ==>
      forall i :: 0 <= i < |rules| ==> |rules[i].inputs| == n
  {
    assert forall i :: 1 <= i < |rules| ==> rules[i] == rules[1..][i - 1];
    if exists i :: 0 <= i < |rules| && Refused(rules[i], k, n) {
      var i :| 0 <= i < |rules| && Refused(rules[i], k, n);
      if i > 0 {
        assert Refused(rules[1..][i - 1], k, n);
      }
    }
  }

  /**
   * Adding rules in order: an input already set keeps its output, and an unset one takes the
   * output of the first rule covering it, the later ones being ignored there.
   */
  lemma {:induction false} AddRulesEval(t: Tree, rules: seq<Rule>, ins: seq<int>)
    requires TreeOk(t) && InRange(ins, t.numStates, NumParams(t))
    requires OutputsSet(rules) && AddRules(t, rules).Ok?
    ensures forall i :: 0 <= i < |rules| ==> |rules[i].inputs| == NumParams(t)
    ensures var t' := AddRules(t, rules).value;
      var e := Eval(t.store.nodes, t.numStates, t.curndd, NumParams(t), ins);
      Eval(t'.store.nodes, t.numStates, t'.curndd, NumParams(t), ins)
        == if e >= 0 then e else FirstOutput(rules, ins, NumParams(t), e)
    decreases |rules|
  {
    if |rules| > 0 {
      var r := rules[0];
      AddRuleErrors(t, r.inputs, r.output);
      AddRuleEval(t, r.inputs, r.output, ins);
      var t1 := AddRule(t, r.inputs, r.output).value;
      assert AddRules(t, rules) == AddRules(t1, rules[1..]);
      RulesTail(rules, t.numStates, NumParams(t));
      AddRulesEval(t1, rules[1..], ins);
    }
  }

  /** The rules are accepted exactly when none of them is refused on its own. */
  lemma {:induction false} AddRulesErrors(t: Tree, rules: seq<Rule>)
    requires TreeOk(t)
    ensures AddRules(t, rules).Err? <==>
      exists i :: 0 <= i < |rules| && Refused(rules[i], t.numStates, NumParams(t))
    decreases |rules|
  {
    if |rules| > 0 {
      var r := rules[0];
      AddRuleErrors(t, r.inputs, r.output);
      RulesTail(rules, t.numStates, NumParams(t));
      if Refused(r, t.numStates, NumParams(t)) {
        assert AddRules(t, rules).Err?;
      } else {
        var t1 := AddRule(t, r.inputs, r.output).value;
        assert AddRules(t, rules) == AddRules(t1, rules[1..]);
        AddRulesErrors(t1, rules[1..]);
      }
    }
  }

  /** The hexagonal cells of `ins` (Moore order C,S,E,W,N,SE,SW,NE,NW) are allowed by transition `t`. */
  predicate HexMatches(t: seq<seq<int>>, ins: seq<int>)
    requires IsTransition(t) && |ins| >= 9
  {
    && ins[0] in t[0] && ins[4] in t[1] && ins[2] in t[2] && ins[5] in t[3]
    && ins[1] in t[4] && ins[3] in t[5] && ins[8] in t[6]
  }

  /** The output of the first transition whose hexagonal cells allow `ins`, or `e` if none does. */
  function HexFirst(ts: seq<seq<seq<int>>>, ins: seq<int>, e: int): int
    requires AllTransitions(ts) && |ins| >= 9
  {
    if |ts| == 0 then e
    else if HexMatches(ts[0], ins) then Output(ts[0])
    else HexFirst(ts[1..], ins, e)
  }

  /**
   * A Moore input is covered by the emulating rule exactly when its hexagonal cells are
   * allowed by the transition, whatever the SW and NE cells hold.
   */
  lemma MooreMatches(t: seq<seq<int>>, numStates: nat, ins: seq<int>)
    requires IsTransition(t) && |ins| >= 9 && 0 <= ins[6] < numStates && 0 <= ins[7] < numStates
    ensures Matches(ins, MooreInputs(t, numStates), 9) <==> HexMatches(t, ins)
  {
    var inputs := MooreInputs(t, numStates);
    assert ins[6] == Range(numStates)[ins[6]] && ins[7] == Range(numStates)[ins[7]];
    if HexMatches(t, ins) {
      forall j | 0 <= j < 9
        ensures ins[j] in inputs[j]
      {
      }
    }
  }

  /** The first emulating rule covering a Moore input is the first transition allowing its hexagonal cells. */
  lemma {:induction false} MooreFirst(ts: seq<seq<seq<int>>>, numStates: nat, ins: seq<int>, e: int)
    requires AllTransitions(ts) && InRange(ins, numStates, 9)
    ensures forall i :: 0 <= i < |ts| ==> |MooreRules(ts, numStates)[i].inputs| == 9
    ensures FirstOutput(MooreRules(ts, numStates), ins, 9, e) == HexFirst(ts, ins, e)
    decreases |ts|
  {
    if |ts| > 0 {
      var rules := MooreRules(ts, numStates);
      assert rules[1..] == MooreRules(ts[1..], numStates);
      MooreMatches(ts[0], numStates, ins);
      MooreFirst(ts[1..], numStates, ins, e);
    }
  }

  /** The emulating tree's outputs are the transitions' outputs, so they set states. */
  lemma {:induction false} MooreOutputs(ts: seq<seq<seq<int>>>, numStates: nat)
    requires AllTransitions(ts) && forall i :: 0 <= i < |ts| ==> Output(ts[i]) >= 0
    ensures OutputsSet(MooreRules(ts, numStates))
    decreases |ts|
  {
    if |ts| > 0 {
      MooreOutputs(ts[1..], numStates);
      var rules := MooreRules(ts, numStates);
      assert forall i :: 1 <= i < |ts| ==> rules[i] == MooreRules(ts[1..], numStates)[i - 1];
    }
  }

  /**
   * The written tree of a hexagonal rule: each Moore input takes the output of the first
   * transition that allows its hexagonal cells, and keeps its centre state if none does.
   */
  lemma HexagonalTreeEval(numStates: nat, ts: seq<seq<seq<int>>>, ins: seq<int>)
    requires AllTransitions(ts) && forall i :: 0 <= i < |ts| ==> Output(ts[i]) >= 0
    requires InRange(ins, numStates, 9) && HexagonalTree(numStates, ts).Ok?
    ensures var saved := HexagonalTree(numStates, ts).value;
      && TreeOk(saved.tree) && NumParams(saved.tree) == 9 && saved.tree.numStates == numStates
      && Eval(saved.tree.store.nodes, numStates, saved.tree.curndd, 9, ins) == HexFirst(ts, ins, ins[0])
  {
    var t := NewTree(numStates, MooreNeighbors);
    var rules := MooreRules(ts, numStates);
    NewTreeUnset(numStates, MooreNeighbors, ins);
    MooreOutputs(ts, numStates);
    AddRulesEval(t, rules, ins);
    var t' := AddRules(t, rules).value;
    MooreFirst(ts, numStates, ins, -1);
    WriteEval(t', ins);
    HexFirstDefault(ts, ins, -1, ins[0]);
  }

  /** With every output a state, a negative result means no transition matched. */
  lemma {:induction false} HexFirstDefault(ts: seq<seq<seq<int>>>, ins: seq<int>, e: int, d: int)
    requires AllTransitions(ts) && |ins| >= 9 && forall i :: 0 <= i < |ts| ==> Output(ts[i]) >= 0
    requires e < 0
    ensures var r := HexFirst(ts, ins, e); (if r >= 0 then r else d) == HexFirst(ts, ins, d)
    decreases |ts|
  {
    if |ts| > 0 && !HexMatches(ts[0], ins) {
      HexFirstDefault(ts[1..], ins, e, d);
    }
  }

  /** The script stops exactly when some transition has a state out of range where `add_rule` reaches it. */
  lemma HexagonalTreeErrors(numStates: nat, ts: seq<seq<seq<int>>>)
    requires AllTransitions(ts)
    ensures HexagonalTree(numStates, ts).Err? <==>
      exists i :: 0 <= i < |ts| && AddFails(MooreInputs(ts[i], numStates), numStates, 9)
  {
    var t := NewTree(numStates, MooreNeighbors);
    var rules := MooreRules(ts, numStates);
    AddRulesErrors(t, rules);
    MooreRulesAt(ts, numStates);
  }

  lemma {:induction false} MooreRulesAt(ts: seq<seq<seq<int>>>, numStates: nat)
    requires AllTransitions(ts)
    ensures forall i :: 0 <= i < |ts| ==>
      MooreRules(ts, numStates)[i] == Rule(MooreInputs(ts[i], numStates), Output(ts[i]))
    decreases |ts|
  {
    if |ts| > 0 {
      MooreRulesAt(ts[1..], numStates);
      var rules := MooreRules(ts, numStates);
      assert forall i :: 1 <= i < |ts| ==> rules[i] == MooreRules(ts[1..], numStates)[i - 1];
    }
  }

  // ---------------------------------------------------------------------------
  // The rule name

  /** `os.path.split(p)[1]`: what follows the last '/' (the whole path when there is none). */
  function BaseName(p: string): (b: string)
    ensures '/' !in b && |b| <= |p| && b == p[|p| - |b|..]
    ensures |b| == |p| || p[|p| - |b| - 1] == '/'
  {
    if |p| == 0 || p[|p| - 1] == '/' then ""
    else BaseName(p[..|p| - 1]) + [p[|p| - 1]]
  }

  /** The index of the last '.' of `s`, if any. */
  function LastDot(s: string): (d: Option<nat>)
    ensures d.Some? ==> d.value < |s| && s[d.value] == '.' && '.' !in s[d.value + 1..]
    ensures d.None? ==> '.' !in s
  {
    if |s| == 0 then None
    else if s[|s| - 1] == '.' then Some(|s| - 1)
    else
      var d := LastDot(s[..|s| - 1]);
      assert d.Some? ==> s[d.value + 1..] == s[..|s| - 1][d.value + 1..] + [s[|s| - 1]];
      d
  }

  predicate AllDots(s: string) {
    forall i :: 0 <= i < |s| ==> s[i] == '.'
  }

  /** `os.path.splitext(b)[0]` on a name without '/': the last '.' and what follows go, unless only dots precede it. */
  function StripExtension(b: string): string {
    match LastDot(b)
    case None => b
    case Some(d) => if AllDots(b[..d]) then b else b[..d]
  }

  /** The rule name `EmulateHexagonal` derives from the input file's path. */
  function RuleName(path: string): (name: string)
    ensures '/' !in name
  {
    StripExtension(BaseName(path))
  }

  /** The name is what a path ends with, cut at most at its last dot. */
  lemma RuleNameIsPrefix(path: string)
    ensures RuleName(path) <= BaseName(path)
    ensures '.' !in BaseName(path) ==> RuleName(path) == BaseName(path)
  {
    var b := BaseName(path);
    match LastDot(b)
    case None =>
    case Some(d) =>
      assert b[..d] <= b;
      assert b[d] in b;
  }

  /** A last character other than '/' ends the base name. */
  lemma BaseNameSnoc(q: string, c: char)
    requires c != '/'
    ensures BaseName(q + [c]) == BaseName(q) + [c]
  {
    var p := q + [c];
    assert p[..|p| - 1] == q && p[|p| - 1] == c;
  }

  /** The base name of `dir/name` is `name`. */
  lemma {:induction false} BaseNameOf(dir: string, name: string)
    requires '/' !in name
    ensures BaseName(dir + "/" + name) == name
    decreases |name|
  {
    if |name| > 0 {
      var init, last := name[..|name| - 1], name[|name| - 1];
      assert name == init + [last] && last in name;
      assert dir + "/" + name == (dir + "/" + init) + [last];
      assert '/' !in init by {
        assert forall i :: 0 <= i < |init| ==> init[i] == name[i];
      }
      BaseNameOf(dir, init);
      BaseNameSnoc(dir + "/" + init, last);
    } else {
      var p := dir + "/" + name;
      assert p[|p| - 1] == '/';
    }
  }

  /** A rule file `dir/name.ext` is named `name`, whatever the directory and extension. */
  lemma RuleNameOf(dir: string, name: string, ext: string)
    requires |name| > 0 && '/' !in name && '.' !in name
    requires '/' !in ext && '.' !in ext
    ensures RuleName(dir + "/" + name + "." + ext) == name
  {
    var b := name + "." + ext;
    assert dir + "/" + name + "." + ext == dir + "/" + b;
    FileNameShape(name, ext);
    BaseNameOf(dir, b);
    assert !AllDots(name) by {
      assert name[0] != '.';
    }
  }

  /** `name.ext` has no '/', and its last dot is the one after `name`. */
  lemma FileNameShape(name: string, ext: string)
    requires '/' !in name && '/' !in ext && '.' !in ext
    ensures var b := name + "." + ext;
      '/' !in b && b[..|name|] == name && LastDot(b) == Some(|name|)
  {
    var b := name + "." + ext;
    assert forall i :: 0 <= i < |b| ==> b[i] == (if i < |name| then name[i] else if i == |name| then '.' else ext[i - |name| - 1]);
    LastDotOf(name, ext);
  }

  /** A last character other than '.' leaves the last dot where it was. */
  lemma LastDotSnoc(q: string, c: char)
    requires c != '.'
    ensures LastDot(q + [c]) == LastDot(q)
  {
    var p := q + [c];
    assert p[..|p| - 1] == q && p[|p| - 1] == c;
  }

  lemma {:induction false} LastDotOf(name: string, ext: string)
    requires '.' !in ext
    ensures LastDot(name + "." + ext) == Some(|name|)
    decreases |ext|
  {
    if |ext| > 0 {
      var init, last := ext[..|ext| - 1], ext[|ext| - 1];
      assert ext == init + [last] && last in ext;
      assert name + "." + ext == (name + "." + init) + [last];
      assert '.' !in init by {
        assert forall i :: 0 <= i < |init| ==> init[i] == ext[i];
      }
      LastDotOf(name, init);
      LastDotSnoc(name + "." + init, last);
    } else {
      var b := name + ".";
      assert name + "." + ext == b && b[|b| - 1] == '.';
    }
  }
}
