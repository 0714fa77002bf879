/**
 * RuleTree.py class `MakeRuleTreeFromTransitionFunction`: the rule tree of a transition
 * function `f`, built by enumerating every input below every node (`_recur`) and interning the
 * nodes in the same store as `RuleTree`, then written out in the same file layout.
 */
module TransitionTree {
  import opened Wrappers
  import opened Decimal
  import opened NodeText
  import opened NodeStore
  import opened RuleTree

  /**
   * `_recur(at)` with `params` holding the inputs chosen above this level: level `at` sets input
   * `numParams - at`, which is the next one after `params`; a leaf is `f(params)`.
   */
  function Recur(f: seq<int> -> int, s: Store, k: nat, n: nat, params: seq<int>, at: nat): (g: Got)
    requires Interned(s) && |params| + at == n
    ensures Interned(g.store) && s.nodes <= g.store.nodes && Valid(g.store.nodes, k, g.index, at)
    decreases at, 1
  {
    if at == 0 then Got(s, f(params))
    else
      var b := RecurEach(f, s, k, n, params, at, []);
      var g := GetNode(b.store, Node(at, b.children));
      ValidAllGrow(b.store.nodes, g.store.nodes, k, b.children, at - 1);
      NodeValid(g.store.nodes, k, g.index, at, b.children);
      g
  }

  /** The `for i in range(self.numStates)` loop of `_recur`; `done` holds the children built so far. */
  function RecurEach(f: seq<int> -> int, s: Store, k: nat, n: nat, params: seq<int>, at: nat, done: seq<int>): (b: Built)
    requires Interned(s) && at > 0 && |params| + at == n && |done| <= k
    requires AllValid(s.nodes, k, done, at - 1)
    ensures Interned(b.store) && s.nodes <= b.store.nodes
    ensures |b.children| == k && AllValid(b.store.nodes, k, b.children, at - 1)
    decreases at, 0, k - |done|
  {
    if |done| == k then Built(s, done)
    else
      var g := Recur(f, s, k, n, params + [|done|], at - 1);
      ValidAllGrow(s.nodes, g.store.nodes, k, done, at - 1);
      AllValidSnoc(g.store.nodes, k, done, g.index, at - 1);
      RecurEach(f, g.store, k, n, params, at, done + [g.index])
  }

  /** What the constructor leaves behind: the nodes, the root, and the lines `_write` writes. */
  datatype Made = Made(nodes: seq<Node>, root: int, lines: seq<string>)

  /** `MakeRuleTreeFromTransitionFunction(numStates, numNeighbors, f, filename)`. */
  function MakeRuleTree(numStates: nat, numNeighbors: nat, f: seq<int> -> int): (m: Made)
    ensures Valid(m.nodes, numStates, m.root, numNeighbors + 1)
    ensures |m.lines| == 3 + |m.nodes|
    ensures m.lines[0] == "num_states=" + NatToString(numStates)
    ensures m.lines[1] == "num_neighbors=" + NatToString(numNeighbors)
    ensures m.lines[2] == "num_nodes=" + NatToString(|m.lines| - 3)
    ensures forall i :: 0 <= i < |m.nodes| ==> m.lines[3 + i] == AppendedNode(m.nodes[i].level, m.nodes[i].children)
  {
    EmptyStoreInterned();
    var g := Recur(f, EmptyStore, numStates, numNeighbors + 1, [], numNeighbors + 1);
    Made(g.store.nodes, g.index, RecurLines(numStates, numNeighbors, g.store.nodes))
  }

  /**
   * The lines `_write` writes: the header, then each node as `_recur` built its string, the
   * level followed by `" " + str(c)` per child.
   */
  function RecurLines(numStates: nat, numNeighbors: nat, nodes: seq<Node>): seq<string> {
    Header(numStates, numNeighbors, |nodes|)
      + seq(|nodes|, i requires 0 <= i < |nodes| => AppendedNode(nodes[i].level, nodes[i].children))
  }

  /**
   * Each node line of the file reads back, with `split()` and `int`, to the node's level and
   * children, so a reader of the file recovers the tree. `MakeRuleTree`'s lines meet the requires.
   */
  lemma MakeRuleTreeLinesRead(nodes: seq<Node>, lines: seq<string>)
    requires |lines| == 3 + |nodes|
    requires forall i :: 0 <= i < |nodes| ==> lines[3 + i] == AppendedNode(nodes[i].level, nodes[i].children)
    ensures forall i :: 0 <= i < |nodes| ==> ReadsAs(lines[3 + i], nodes[i])
  {
    forall i | 0 <= i < |nodes|
      ensures ReadsAs(lines[3 + i], nodes[i])
    {
      assert lines[3 + i] == AppendedNode(nodes[i].level, nodes[i].children);
      AppendedLevel(nodes[i].level, nodes[i].children);
      AppendedChildren(nodes[i].level, nodes[i].children);
    }
  }

  /** `line.split()` starts with the level of `n`, and the rest of it reads back to `n`'s children. */
  predicate ReadsAs(line: string, n: Node) {
    && |Words(line)| > 0 && Words(line)[0] == NatToString(n.level)
    && NodeChildren(line) == Some(n.children)
  }

  /** `s` backwards: the tree's inputs are the parameters in reverse order. */
  function Reverse(s: seq<int>): (r: seq<int>)
    ensures |r| == |s|
  {
    if |s| == 0 then [] else [s[|s| - 1]] + Reverse(s[..|s| - 1])
  }

  lemma {:induction false} ReverseIndex(s: seq<int>, i: int)
    requires 0 <= i < |s|
    ensures Reverse(s)[i] == s[|s| - 1 - i]
  {
    if i > 0 {
      ReverseIndex(s[..|s| - 1], i - 1);
    }
  }

  lemma ReverseReverse(s: seq<int>)
    ensures Reverse(Reverse(s)) == s
  {
    var r := Reverse(s);
    forall i | 0 <= i < |s|
      ensures Reverse(r)[i] == s[i]
    {
      ReverseIndex(r, i);
      ReverseIndex(s, |s| - 1 - i);
    }
  }

  /** Level `at` chooses the parameter right after `params`. */
  lemma PrefixReverse(params: seq<int>, ins: seq<int>, at: nat)
    requires 0 < at <= |ins|
    ensures params + [ins[at - 1]] + Reverse(ins[..at - 1]) == params + Reverse(ins[..at])
  {
    assert ins[..at][..at - 1] == ins[..at - 1];
  }

  /** The tree `_recur` builds at level `at` gives `f` of the parameters above plus those its inputs choose. */
  lemma {:induction false} RecurEval(f: seq<int> -> int, s: Store, k: nat, n: nat, params: seq<int>, at: nat, ins: seq<int>)
    requires Interned(s) && |params| + at == n && InRange(ins, k, at)
    ensures var g := Recur(f, s, k, n, params, at);
      Eval(g.store.nodes, k, g.index, at, ins) == f(params + Reverse(ins[..at]))
    decreases at, 1
  {
    if at == 0 {
      assert params + Reverse(ins[..0]) == params;
    } else {
      var c := ins[at - 1];
      var b := RecurEach(f, s, k, n, params, at, []);
      assert Recur(f, s, k, n, params, at) == GetNode(b.store, Node(at, b.children));
      EvalNewNode(b.store, k, at, b.children, ins);
      RecurEachEval(f, s, k, n, params, at, [], c, ins);
      PrefixReverse(params, ins, at);
    }
  }

  lemma {:induction false} RecurEachEval(f: seq<int> -> int, s: Store, k: nat, n: nat, params: seq<int>, at: nat,
                                         done: seq<int>, c: int, ins: seq<int>)
    requires Interned(s) && at > 0 && |params| + at == n && |done| <= k
    requires AllValid(s.nodes, k, done, at - 1)
    requires 0 <= c < k && InRange(ins, k, at - 1)
    requires c < |done| ==> Eval(s.nodes, k, done[c], at - 1, ins) == f(params + [c] + Reverse(ins[..at - 1]))
    ensures var b := RecurEach(f, s, k, n, params, at, done);
      Eval(b.store.nodes, k, b.children[c], at - 1, ins) == f(params + [c] + Reverse(ins[..at - 1]))
    decreases at, 0, k - |done|
  {
    if |done| < k {
      var g := Recur(f, s, k, n, params + [|done|], at - 1);
      ValidAllGrow(s.nodes, g.store.nodes, k, done, at - 1);
      AllValidSnoc(g.store.nodes, k, done, g.index, at - 1);
      var done' := done + [g.index];
      if c < |done| {
        assert done'[c] == done[c];
        EvalGrow(s.nodes, g.store.nodes, k, done[c], at - 1, ins);
      } else if c == |done| {
        RecurEval(f, s, k, n, params + [c], at - 1, ins);
      }
      RecurEachEval(f, g.store, k, n, params, at, done', c, ins);
    }
  }

  /**
   * The written tree computes the transition function: for every choice of the `numParams`
   * parameters, the tree read with the parameters in reverse order (centre last) gives
   * `f(params)`.
   */
  lemma MakeRuleTreeEval(numStates: nat, numNeighbors: nat, f: seq<int> -> int, params: seq<int>)
    requires |params| == numNeighbors + 1
    requires forall j :: 0 <= j < |params| ==> 0 <= params[j] < numStates
    ensures var m := MakeRuleTree(numStates, numNeighbors, f);
      InRange(Reverse(params), numStates, numNeighbors + 1) &&
      Eval(m.nodes, numStates, m.root, numNeighbors + 1, Reverse(params)) == f(params)
  {
    var n := numNeighbors + 1;
    var ins := Reverse(params);
    forall j | 0 <= j < n
      ensures 0 <= ins[j] < numStates
    {
      ReverseIndex(params, j);
    }
    EmptyStoreInterned();
    RecurEval(f, EmptyStore, numStates, n, [], n, ins);
    assert ins[..n] == ins;
    ReverseReverse(params);
    assert [] + params == params;
  }
}
