/**
 * What the rule tree computes, and how each operation of RuleTree.py changes it: a new tree
 * leaves every input unset, `add_rule` sets the unset outputs of exactly the inputs its sets
 * match, `_shrink` changes nothing a tree computes, and `_setdefaults` fills the unset outputs
 * with the centre cell's state.
 */
module RuleTreeProofs {
  import opened Wrappers
  import opened Decimal
  import opened NodeStore
  import opened RuleTree

  // ---------------------------------------------------------------------------
  // The tree `RuleTree(numStates, numNeighbors)` starts from

  /** The nodes `_init_tree` creates, one per level: the node at index `i` has level `i + 1` and `k` copies of node `i - 1`. */
  predicate IsInit(nodes: seq<Node>, k: nat) {
    forall i :: 0 <= i < |nodes| ==> nodes[i] == Node(i + 1, Repeat(i - 1, k))
  }

  /** One step of `_init_tree`: the node for level `level + 1` is new, and goes in at index `level`. */
  lemma InitStep(s: Store, k: nat, level: nat)
    requires Interned(s) && |s.nodes| == level && IsInit(s.nodes, k)
    requires Valid(s.nodes, k, level - 1, level)
    ensures var g := GetNode(s, Node(level + 1, Repeat(level - 1, k)));
      && |g.store.nodes| == level + 1 && IsInit(g.store.nodes, k) && g.index == level
      && Valid(g.store.nodes, k, level, level + 1)
  {
    var node := Node(level + 1, Repeat(level - 1, k));
    forall n | n in s.world
      ensures n.level <= level
    {
      assert s.nodes[s.world[n]] == n;
    }
    assert node !in s.world;
    var g := GetNode(s, node);
    assert g.store.nodes == s.nodes + [node];
    InitSnoc(s.nodes, k, node);
    ValidGrow(s.nodes, g.store.nodes, k, level - 1, level);
    NodeValid(g.store.nodes, k, level, level + 1, Repeat(level - 1, k));
  }

  lemma InitSnoc(nodes: seq<Node>, k: nat, node: Node)
    requires IsInit(nodes, k) && node == Node(|nodes| + 1, Repeat(|nodes| - 1, k))
    ensures IsInit(nodes + [node], k)
  {
  }

  /** `_init_tree` builds one new node per level, each on top of the previous one. */
  lemma {:induction false} InitFromShape(s: Store, k: nat, level: nat, top: nat)
    requires Interned(s) && |s.nodes| == level && IsInit(s.nodes, k) && level <= top
    requires Valid(s.nodes, k, level - 1, level)
    ensures var g := InitFrom(s, k, level, top, level - 1);
      |g.store.nodes| == top && IsInit(g.store.nodes, k) && g.index == top - 1
    decreases top - level
  {
    if level < top {
      var g := GetNode(s, Node(level + 1, Repeat(level - 1, k)));
      InitStep(s, k, level);
      InitFromShape(g.store, k, level + 1, top);
    }
  }

  /** Every input of a tree built by `_init_tree` leads to the unset output -1. */
  lemma {:induction false} InitUnset(nodes: seq<Node>, k: nat, lev: nat, ins: seq<int>)
    requires lev <= |nodes| && IsInit(nodes, k)
    requires Valid(nodes, k, lev - 1, lev) && InRange(ins, k, lev)
    ensures Eval(nodes, k, lev - 1, lev, ins) == -1
    decreases lev
  {
    if lev > 0 {
      var c := Children(nodes, k, lev - 1, lev)[ins[lev - 1]];
      assert c == lev - 2;
      InitUnset(nodes, k, lev - 1, ins);
    }
  }

  /**
   * A new rule tree: one node per level, the root on top, and every input unset, so that
   * `_setdefaults` would later fill in the centre cell's state everywhere.
   */
  lemma NewTreeUnset(numStates: nat, numNeighbors: nat, ins: seq<int>)
    requires InRange(ins, numStates, numNeighbors + 1)
    ensures var t := NewTree(numStates, numNeighbors);
      && |t.store.nodes| == numNeighbors + 1 && IsInit(t.store.nodes, numStates)
      && t.curndd == numNeighbors
      && t.shrinksize == 100
      && Eval(t.store.nodes, numStates, t.curndd, numNeighbors + 1, ins) == -1
  {
    var t := NewTree(numStates, numNeighbors);
    EmptyStoreInterned();
    InitFromShape(EmptyStore, numStates, 0, numNeighbors + 1);
    InitUnset(t.store.nodes, numStates, numNeighbors + 1, ins);
  }

  // ---------------------------------------------------------------------------
  // add_rule

  /** `ins` is one of the inputs the rule covers: each of its values is in the matching set. */
  predicate Matches(ins: seq<int>, inputs: seq<seq<int>>, at: nat)
    requires at <= |ins| && at <= |inputs|
  {
    forall j :: 0 <= j < at ==> ins[j] in inputs[j]
  }

  lemma MatchesStep(ins: seq<int>, inputs: seq<seq<int>>, at: nat)
    requires 0 < at <= |ins| && at <= |inputs|
    ensures Matches(ins, inputs, at) == (ins[at - 1] in inputs[at - 1] && Matches(ins, inputs, at - 1))
  {
  }

  /** A rule only sets outputs that are still unset: the first rule covering an input wins. */
  function AddSem(e: int, matches: bool, output: int): int {
    if matches && e < 0 then output else e
  }

  /** Adding a rule below a node changes its output exactly as `AddSem` says. */
  lemma {:induction false} AddEval(s: Store, k: nat, inputs: seq<seq<int>>, output: int, nddr: int, at: nat, ins: seq<int>)
    requires Interned(s) && Valid(s.nodes, k, nddr, at)
    requires at <= |inputs| && !AddFails(inputs, k, at) && InRange(ins, k, at)
    ensures var g := Add(s, k, inputs, output, nddr, at);
      Eval(g.store.nodes, k, g.index, at, ins)
        == AddSem(Eval(s.nodes, k, nddr, at, ins), Matches(ins, inputs, at), output)
    decreases at, 1
  {
    if at > 0 {
      var cs := Children(s.nodes, k, nddr, at);
      var c := ins[at - 1];
      var b := AddEach(s, k, inputs, output, at, cs, 0);
      assert Add(s, k, inputs, output, nddr, at) == GetNode(b.store, Node(at, b.children));
      EvalNewNode(b.store, k, at, b.children, ins);
      AddEachEval(s, k, inputs, output, at, cs, 0, c, ins);
      assert inputs[at - 1][0..] == inputs[at - 1];
      MatchesStep(ins, inputs, at);
    }
  }

  /**
   * The loop over one input set: child `c` is rewritten by `AddSem` if `c` is among the values
   * still to visit, and left as it is otherwise (a repeated value applies `AddSem` twice, which
   * changes nothing more).
   */
  lemma {:induction false} AddEachEval(s: Store, k: nat, inputs: seq<seq<int>>, output: int, at: nat,
                                       children: seq<int>, j: nat, c: int, ins: seq<int>)
    requires Interned(s) && 0 < at <= |inputs| && !AddFails(inputs, k, at)
    requires j <= |inputs[at - 1]|
    requires |children| == k && AllValid(s.nodes, k, children, at - 1)
    requires 0 <= c < k && InRange(ins, k, at - 1)
    ensures var b := AddEach(s, k, inputs, output, at, children, j);
      var e := Eval(s.nodes, k, children[c], at - 1, ins);
      Eval(b.store.nodes, k, b.children[c], at - 1, ins)
        == if c in inputs[at - 1][j..] then AddSem(e, Matches(ins, inputs, at - 1), output) else e
    decreases at, 0, |inputs[at - 1]| - j, 1
  {
    var inset := inputs[at - 1];
    if j < |inset| {
      var e := Eval(s.nodes, k, children[c], at - 1, ins);
      var v := inset[j];
      var g := Add(s, k, inputs, output, children[v], at - 1);
      var cs := children[v := g.index];
      AddEachStep(s, k, inputs, output, at, children, j, c, ins);
      var e1 := Eval(g.store.nodes, k, cs[c], at - 1, ins);
      AddEachEval(g.store, k, inputs, output, at, cs, j + 1, c, ins);
      var b := AddEach(g.store, k, inputs, output, at, cs, j + 1);
      AddSemLater(e, e1, Eval(b.store.nodes, k, b.children[c], at - 1, ins), Matches(ins, inputs, at - 1), output, c, inset, j);
    } else {
      assert inset[j..] == [];
    }
  }

  /** Applying `AddSem` for value `inset[j]` and then for the values after it is applying it for all from `j` on. */
  lemma AddSemLater(e: int, e1: int, r: int, matches: bool, output: int, c: int, inset: seq<int>, j: nat)
    requires j < |inset|
    requires e1 == if c == inset[j] then AddSem(e, matches, output) else e
    requires r == if c in inset[j + 1..] then AddSem(e1, matches, output) else e1
    ensures r == if c in inset[j..] then AddSem(e, matches, output) else e
  {
    assert inset[j..] == [inset[j]] + inset[j + 1..];
  }

  /** One pass of the loop: the child for value `inset[j]` is rewritten by `AddSem`, and the others keep what they compute. */
  lemma AddEachStep(s: Store, k: nat, inputs: seq<seq<int>>, output: int, at: nat,
                    children: seq<int>, j: nat, c: int, ins: seq<int>)
    requires Interned(s) && 0 < at <= |inputs| && !AddFails(inputs, k, at)
    requires j < |inputs[at - 1]|
    requires |children| == k && AllValid(s.nodes, k, children, at - 1)
    requires 0 <= c < k && InRange(ins, k, at - 1)
    ensures var v := inputs[at - 1][j];
      0 <= v < k &&
      var g := Add(s, k, inputs, output, children[v], at - 1);
      var e := Eval(s.nodes, k, children[c], at - 1, ins);
      && Interned(g.store) && AllValid(g.store.nodes, k, children[v := g.index], at - 1)
      && AddEach(s, k, inputs, output, at, children, j) == AddEach(g.store, k, inputs, output, at, children[v := g.index], j + 1)
      && Eval(g.store.nodes, k, children[v := g.index][c], at - 1, ins)
           == if c == v then AddSem(e, Matches(ins, inputs, at - 1), output) else e
    decreases at, 0, |inputs[at - 1]| - j, 0
  {
    var v := inputs[at - 1][j];
    var g := Add(s, k, inputs, output, children[v], at - 1);
    ValidAllGrow(s.nodes, g.store.nodes, k, children, at - 1);
    AllValidUpdate(g.store.nodes, k, children, v, g.index, at - 1);
    if c == v {
      AddEval(s, k, inputs, output, children[v], at - 1, ins);
    } else {
      EvalGrow(s.nodes, g.store.nodes, k, children[c], at - 1, ins);
    }
  }

  /** `_add` rewrites only the children its input set names; every other child is kept as it was. */
  lemma AddUntouched(s: Store, k: nat, inputs: seq<seq<int>>, output: int, nddr: int, at: nat, c: int)
    requires Interned(s) && Valid(s.nodes, k, nddr, at)
    requires 0 < at <= |inputs| && !AddFails(inputs, k, at)
    requires 0 <= c < k && c !in inputs[at - 1]
    ensures var g := Add(s, k, inputs, output, nddr, at);
      Children(g.store.nodes, k, g.index, at)[c] == Children(s.nodes, k, nddr, at)[c]
  {
    var cs := Children(s.nodes, k, nddr, at);
    var b := AddEach(s, k, inputs, output, at, cs, 0);
    var g := GetNode(b.store, Node(at, b.children));
    assert Add(s, k, inputs, output, nddr, at) == g;
    ValidAllGrow(b.store.nodes, g.store.nodes, k, b.children, at - 1);
    NodeValid(g.store.nodes, k, g.index, at, b.children);
    assert inputs[at - 1][0..] == inputs[at - 1];
    AddEachUntouched(s, k, inputs, output, at, cs, 0, c);
  }

  lemma {:induction false} AddEachUntouched(s: Store, k: nat, inputs: seq<seq<int>>, output: int, at: nat,
                                            children: seq<int>, j: nat, c: int)
    requires Interned(s) && 0 < at <= |inputs| && !AddFails(inputs, k, at)
    requires j <= |inputs[at - 1]|
    requires |children| == k && AllValid(s.nodes, k, children, at - 1)
    requires 0 <= c < k && c !in inputs[at - 1][j..]
    ensures AddEach(s, k, inputs, output, at, children, j).children[c] == children[c]
    decreases |inputs[at - 1]| - j
  {
    var inset := inputs[at - 1];
    if j < |inset| {
      var v := inset[j];
      var g := Add(s, k, inputs, output, children[v], at - 1);
      ValidAllGrow(s.nodes, g.store.nodes, k, children, at - 1);
      AllValidUpdate(g.store.nodes, k, children, v, g.index, at - 1);
      assert inset[j..] == [v] + inset[j + 1..];
      assert c != v && children[v := g.index][c] == children[c];
      assert AddEach(s, k, inputs, output, at, children, j)
        == AddEach(g.store, k, inputs, output, at, children[v := g.index], j + 1);
      AddEachUntouched(g.store, k, inputs, output, at, children[v := g.index], j + 1, c);
    }
  }

  // ---------------------------------------------------------------------------
  // _recreate and _shrink

  /** Rebuilding a tree in another store changes nothing it computes. */
  lemma {:induction false} RecreateEval(oseq: seq<Node>, s: Store, k: nat, nddr: int, lev: nat, ins: seq<int>)
    requires Interned(s) && Valid(oseq, k, nddr, lev) && InRange(ins, k, lev)
    ensures var g := Recreate(oseq, s, k, nddr, lev);
      Eval(g.store.nodes, k, g.index, lev, ins) == Eval(oseq, k, nddr, lev, ins)
    decreases lev, 1
  {
    if lev > 0 {
      var cs := Children(oseq, k, nddr, lev);
      var c := ins[lev - 1];
      var b := RecreateEach(oseq, s, k, lev, cs, []);
      assert Recreate(oseq, s, k, nddr, lev) == GetNode(b.store, Node(lev, b.children));
      EvalNewNode(b.store, k, lev, b.children, ins);
      RecreateEachEval(oseq, s, k, lev, cs, [], c, ins);
    }
  }

  /** The loop of `_recreate`: each rebuilt child computes what the old one did. */
  lemma {:induction false} RecreateEachEval(oseq: seq<Node>, s: Store, k: nat, lev: nat, prev: seq<int>,
                                            done: seq<int>, c: int, ins: seq<int>)
    requires Interned(s) && lev > 0 && |prev| == k && |done| <= k
    requires AllValid(oseq, k, prev, lev - 1) && AllValid(s.nodes, k, done, lev - 1)
    requires 0 <= c < k && InRange(ins, k, lev - 1)
    requires c < |done| ==> Eval(s.nodes, k, done[c], lev - 1, ins) == Eval(oseq, k, prev[c], lev - 1, ins)
    ensures var b := RecreateEach(oseq, s, k, lev, prev, done);
      Eval(b.store.nodes, k, b.children[c], lev - 1, ins) == Eval(oseq, k, prev[c], lev - 1, ins)
    decreases lev, 0, k - |done|
  {
    if |done| < k {
      var g := Recreate(oseq, s, k, prev[|done|], lev - 1);
      ValidAllGrow(s.nodes, g.store.nodes, k, done, lev - 1);
      AllValidSnoc(g.store.nodes, k, done, g.index, lev - 1);
      var done' := done + [g.index];
      if c < |done| {
        assert done'[c] == done[c];
        EvalGrow(s.nodes, g.store.nodes, k, done[c], lev - 1, ins);
      } else if c == |done| {
        RecreateEval(oseq, s, k, prev[c], lev - 1, ins);
      }
      RecreateEachEval(oseq, g.store, k, lev, prev, done', c, ins);
    }
  }

  /** `_shrink` keeps the rule the tree computes. */
  lemma ShrinkEval(t: Tree, ins: seq<int>)
    requires TreeOk(t) && InRange(ins, t.numStates, NumParams(t))
    ensures var t' := Shrink(t);
      && t'.numStates == t.numStates && t'.numNeighbors == t.numNeighbors
      && t'.shrinksize == 2 * |t'.store.nodes|
      && Eval(t'.store.nodes, t.numStates, t'.curndd, NumParams(t), ins)
        == Eval(t.store.nodes, t.numStates, t.curndd, NumParams(t), ins)
  {
    EmptyStoreInterned();
    RecreateEval(t.store.nodes, EmptyStore, t.numStates, t.curndd, NumParams(t), ins);
  }

  /** Every node `_recreate` adds to the store is a node of the tree it returns. */
  lemma {:induction false} RecreateReach(oseq: seq<Node>, s: Store, k: nat, nddr: int, lev: nat)
    requires Interned(s) && Valid(oseq, k, nddr, lev)
    ensures var g := Recreate(oseq, s, k, nddr, lev);
      Span(|s.nodes|, |g.store.nodes|) <= Reach(g.store.nodes, k, g.index, lev)
    decreases lev, 1
  {
    if lev > 0 {
      var cs := Children(oseq, k, nddr, lev);
      var b := RecreateEach(oseq, s, k, lev, cs, []);
      var g := GetNode(b.store, Node(lev, b.children));
      assert Recreate(oseq, s, k, nddr, lev) == g;
      RecreateEachReach(oseq, s, k, lev, cs, [], |s.nodes|);
      ReachNewNode(b.store, k, lev, b.children);
      SpanSplit(|s.nodes|, |b.store.nodes|, |g.store.nodes|);
    }
  }

  /** Interning a node adds at most that node, and its tree is it and its children's trees. */
  lemma ReachNewNode(s: Store, k: nat, lev: nat, cs: seq<int>)
    requires Interned(s) && lev > 0 && |cs| == k && AllValid(s.nodes, k, cs, lev - 1)
    ensures var g := GetNode(s, Node(lev, cs));
      && Valid(g.store.nodes, k, g.index, lev)
      && Reach(g.store.nodes, k, g.index, lev) == {g.index} + ReachAll(s.nodes, k, cs, lev - 1)
      && Span(|s.nodes|, |g.store.nodes|) <= {g.index}
  {
    var g := GetNode(s, Node(lev, cs));
    ReachAllGrow(s.nodes, g.store.nodes, k, cs, lev - 1);
    ReachNode(g.store.nodes, k, g.index, lev, cs);
    if |g.store.nodes| == |s.nodes| {
      assert Span(|s.nodes|, |g.store.nodes|) == {};
    } else {
      assert Span(|s.nodes|, |g.store.nodes|) == {g.index};
    }
  }

  lemma SpanSplit(lo: int, mid: int, hi: int)
    requires lo <= mid <= hi
    ensures Span(lo, hi) == Span(lo, mid) + Span(mid, hi)
  {
  }

  /** A stored node's tree is the node itself and the trees of its children. */
  lemma ReachNode(nodes: seq<Node>, k: nat, idx: int, lev: nat, cs: seq<int>)
    requires lev > 0 && 0 <= idx < |nodes| && nodes[idx] == Node(lev, cs)
    requires |cs| == k && AllValid(nodes, k, cs, lev - 1)
    ensures Valid(nodes, k, idx, lev)
    ensures Reach(nodes, k, idx, lev) == {idx} + ReachAll(nodes, k, cs, lev - 1)
  {
    NodeValid(nodes, k, idx, lev, cs);
  }

  /** One more child adds its tree's nodes. */
  lemma ReachAllSnoc(nodes: seq<Node>, k: nat, cs: seq<int>, x: int, lev: nat)
    requires AllValid(nodes, k, cs, lev) && Valid(nodes, k, x, lev)
    ensures AllValid(nodes, k, cs + [x], lev)
    ensures ReachAll(nodes, k, cs + [x], lev) == ReachAll(nodes, k, cs, lev) + Reach(nodes, k, x, lev)
  {
    AllValidSnoc(nodes, k, cs, x, lev);
    assert (cs + [x])[..|cs|] == cs;
  }

  /** The loop of `_recreate`: every node added since `base` belongs to one of the rebuilt children. */
  lemma {:induction false} RecreateEachReach(oseq: seq<Node>, s: Store, k: nat, lev: nat, prev: seq<int>,
                                             done: seq<int>, base: nat)
    requires Interned(s) && lev > 0 && |prev| == k && |done| <= k
    requires AllValid(oseq, k, prev, lev - 1) && AllValid(s.nodes, k, done, lev - 1)
    requires base <= |s.nodes|
    requires Span(base, |s.nodes|) <= ReachAll(s.nodes, k, done, lev - 1)
    ensures var b := RecreateEach(oseq, s, k, lev, prev, done);
      Span(base, |b.store.nodes|) <= ReachAll(b.store.nodes, k, b.children, lev - 1)
    decreases lev, 0, k - |done|, 1
  {
    if |done| < k {
      var g := Recreate(oseq, s, k, prev[|done|], lev - 1);
      RecreateStepReach(oseq, s, k, lev, prev[|done|], done, base);
      RecreateEachReach(oseq, g.store, k, lev, prev, done + [g.index], base);
    }
  }

  /** One pass of that loop: the child rebuilt from `x` accounts for the nodes it added. */
  lemma RecreateStepReach(oseq: seq<Node>, s: Store, k: nat, lev: nat, x: int, done: seq<int>, base: nat)
    requires Interned(s) && lev > 0 && |done| < k
    requires Valid(oseq, k, x, lev - 1) && AllValid(s.nodes, k, done, lev - 1)
    requires base <= |s.nodes|
    requires Span(base, |s.nodes|) <= ReachAll(s.nodes, k, done, lev - 1)
    ensures var g := Recreate(oseq, s, k, x, lev - 1);
      && AllValid(g.store.nodes, k, done + [g.index], lev - 1)
      && Span(base, |g.store.nodes|) <= ReachAll(g.store.nodes, k, done + [g.index], lev - 1)
    decreases lev, 0, k - |done|, 0
  {
    var g := Recreate(oseq, s, k, x, lev - 1);
    RecreateReach(oseq, s, k, x, lev - 1);
    GrowStepReach(s.nodes, g.store.nodes, k, lev - 1, done, g.index, base);
  }

  /**
   * Appending nodes and then one more child: if the old children account for the nodes from
   * `base` on and the new child for the appended ones, together they account for all of them.
   */
  lemma GrowStepReach(nodes: seq<Node>, nodes': seq<Node>, k: nat, lev: nat, done: seq<int>, x: int, base: nat)
    requires nodes <= nodes' && base <= |nodes|
    requires AllValid(nodes, k, done, lev) && Valid(nodes', k, x, lev)
    requires Span(base, |nodes|) <= ReachAll(nodes, k, done, lev)
    requires Span(|nodes|, |nodes'|) <= Reach(nodes', k, x, lev)
    ensures AllValid(nodes', k, done + [x], lev)
    ensures Span(base, |nodes'|) <= ReachAll(nodes', k, done + [x], lev)
  {
    ReachAllGrow(nodes, nodes', k, done, lev);
    ReachAllSnoc(nodes', k, done, x, lev);
    SpanSplit(base, |nodes|, |nodes'|);
    SubsetJoin(Span(base, |nodes|), Span(|nodes|, |nodes'|),
               ReachAll(nodes', k, done, lev), Reach(nodes', k, x, lev), Span(base, |nodes'|));
  }

  lemma SubsetJoin(a: set<int>, b: set<int>, c: set<int>, d: set<int>, e: set<int>)
    requires a <= c && b <= d && e == a + b
    ensures e <= c + d
  {
  }

  /** `_shrink` keeps exactly the nodes reachable from the root: every node of the new store is one of them. */
  lemma ShrinkReachable(t: Tree)
    requires TreeOk(t)
    ensures var t' := Shrink(t);
      Reach(t'.store.nodes, t'.numStates, t'.curndd, NumParams(t')) == Span(0, |t'.store.nodes|)
  {
    EmptyStoreInterned();
    RecreateReach(t.store.nodes, EmptyStore, t.numStates, t.curndd, NumParams(t));
    var t' := Shrink(t);
    var r := Reach(t'.store.nodes, t'.numStates, t'.curndd, NumParams(t'));
    assert forall j :: j in r ==> j in Span(0, |t'.store.nodes|);
  }

  /**
   * `add_rule` on inputs of the right length and in range succeeds and keeps the tree's shape;
   * the tree now gives `output` for every input the rule matches that was unset, and nothing
   * else changes.
   */
  lemma AddRuleEval(t: Tree, inputs: seq<seq<int>>, output: int, ins: seq<int>)
    requires TreeOk(t) && InRange(ins, t.numStates, NumParams(t))
    requires |inputs| == NumParams(t) && !AddFails(inputs, t.numStates, NumParams(t))
    ensures AddRule(t, inputs, output).Ok?
    ensures var t' := AddRule(t, inputs, output).value;
      && TreeOk(t') && t'.numStates == t.numStates && t'.numNeighbors == t.numNeighbors
      && Eval(t'.store.nodes, t.numStates, t'.curndd, NumParams(t), ins)
        == AddSem(Eval(t.store.nodes, t.numStates, t.curndd, NumParams(t), ins),
                  Matches(ins, inputs, NumParams(t)), output)
  {
    AddCheckedEval(t, inputs, output, ins);
  }

  lemma AddCheckedEval(t: Tree, inputs: seq<seq<int>>, output: int, ins: seq<int>)
    requires TreeOk(t) && InRange(ins, t.numStates, NumParams(t))
    requires |inputs| == NumParams(t) && !AddFails(inputs, t.numStates, NumParams(t))
    ensures var t' := AddChecked(t, inputs, output);
      Eval(t'.store.nodes, t.numStates, t'.curndd, NumParams(t), ins)
        == AddSem(Eval(t.store.nodes, t.numStates, t.curndd, NumParams(t), ins),
                  Matches(ins, inputs, NumParams(t)), output)
  {
    var n := NumParams(t);
    var g := Add(t.store, t.numStates, inputs, output, t.curndd, n);
    var t1 := t.(store := g.store, curndd := g.index);
    assert TreeOk(t1) && NumParams(t1) == n && t1.numStates == t.numStates;
    assert AddChecked(t, inputs, output) == MaybeShrink(t1);
    AddEval(t.store, t.numStates, inputs, output, t.curndd, n, ins);
    MaybeShrinkEval(t1, ins);
  }

  lemma MaybeShrinkEval(t: Tree, ins: seq<int>)
    requires TreeOk(t) && InRange(ins, t.numStates, NumParams(t))
    ensures Eval(MaybeShrink(t).store.nodes, t.numStates, MaybeShrink(t).curndd, NumParams(t), ins)
      == Eval(t.store.nodes, t.numStates, t.curndd, NumParams(t), ins)
  {
    if t.store.nodeSeq > t.shrinksize {
      ShrinkEval(t, ins);
    }
  }

  /** `add_rule` refuses inputs of the wrong length, and values out of range at any level it reaches. */
  lemma AddRuleErrors(t: Tree, inputs: seq<seq<int>>, output: int)
    requires TreeOk(t)
    ensures |inputs| != NumParams(t) ==>
      AddRule(t, inputs, output) == Err("Input length mismatch: " + InputsRepr(inputs))
    ensures |inputs| == NumParams(t) && AddFails(inputs, t.numStates, NumParams(t)) ==>
      AddRule(t, inputs, output) == Err("Input out of range for: " + InputsRepr(inputs))
    ensures AddRule(t, inputs, output).Err? <==>
      |inputs| != NumParams(t) || AddFails(inputs, t.numStates, NumParams(t))
  {
  }

  // ---------------------------------------------------------------------------
  // _setdefaults and write

  /** An unset output becomes the centre cell's state (`ins[0]`), or the leaf's offset at level 0. */
  function DefSem(e: int, off: int, at: nat, ins: seq<int>): int
    requires at == 0 || |ins| > 0
  {
    if e >= 0 then e else if at == 0 then off else ins[0]
  }

  /** Filling in defaults below a node changes its output exactly as `DefSem` says. */
  lemma {:induction false} SetDefaultsEval(s: Store, k: nat, nddr: int, off: int, at: nat, ins: seq<int>)
    requires Interned(s) && Valid(s.nodes, k, nddr, at) && InRange(ins, k, at)
    ensures var g := SetDefaults(s, k, nddr, off, at);
      Eval(g.store.nodes, k, g.index, at, ins) == DefSem(Eval(s.nodes, k, nddr, at, ins), off, at, ins)
    decreases at, 1
  {
    if at > 0 {
      var cs := Children(s.nodes, k, nddr, at);
      var c := ins[at - 1];
      var b := SetDefaultsEach(s, k, at, cs, []);
      assert SetDefaults(s, k, nddr, off, at) == GetNode(b.store, Node(at, b.children));
      EvalNewNode(b.store, k, at, b.children, ins);
      SetDefaultsEachEval(s, k, at, cs, [], c, ins);
    }
  }

  /** The loop of `_setdefaults`: child `c` is completed with offset `c`. */
  lemma {:induction false} SetDefaultsEachEval(s: Store, k: nat, at: nat, prev: seq<int>, done: seq<int>,
                                               c: int, ins: seq<int>)
    requires Interned(s) && at > 0 && |prev| == k && |done| <= k
    requires AllValid(s.nodes, k, prev, at - 1) && AllValid(s.nodes, k, done, at - 1)
    requires 0 <= c < k && InRange(ins, k, at - 1) && |ins| > 0
    requires c < |done| ==>
      Eval(s.nodes, k, done[c], at - 1, ins) == DefSem(Eval(s.nodes, k, prev[c], at - 1, ins), c, at - 1, ins)
    ensures var b := SetDefaultsEach(s, k, at, prev, done);
      Eval(b.store.nodes, k, b.children[c], at - 1, ins)
        == DefSem(Eval(s.nodes, k, prev[c], at - 1, ins), c, at - 1, ins)
    decreases at, 0, k - |done|, 1
  {
    if |done| < k {
      var g := SetDefaults(s, k, prev[|done|], |done|, at - 1);
      SetDefaultsStepEval(s, k, at, prev, done, c, ins);
      SetDefaultsEachEval(g.store, k, at, prev, done + [g.index], c, ins);
    }
  }

  /** One pass of that loop: the children done so far keep their meaning, and child `c`, once done, is completed. */
  lemma SetDefaultsStepEval(s: Store, k: nat, at: nat, prev: seq<int>, done: seq<int>, c: int, ins: seq<int>)
    requires Interned(s) && at > 0 && |prev| == k && |done| < k
    requires AllValid(s.nodes, k, prev, at - 1) && AllValid(s.nodes, k, done, at - 1)
    requires 0 <= c < k && InRange(ins, k, at - 1) && |ins| > 0
    requires c < |done| ==>
      Eval(s.nodes, k, done[c], at - 1, ins) == DefSem(Eval(s.nodes, k, prev[c], at - 1, ins), c, at - 1, ins)
    ensures var g := SetDefaults(s, k, prev[|done|], |done|, at - 1);
      && AllValid(g.store.nodes, k, prev, at - 1) && AllValid(g.store.nodes, k, done + [g.index], at - 1)
      && Eval(g.store.nodes, k, prev[c], at - 1, ins) == Eval(s.nodes, k, prev[c], at - 1, ins)
      && (c <= |done| ==>
          Eval(g.store.nodes, k, (done + [g.index])[c], at - 1, ins)
            == DefSem(Eval(s.nodes, k, prev[c], at - 1, ins), c, at - 1, ins))
    decreases at, 0, k - |done|, 0
  {
    var g := SetDefaults(s, k, prev[|done|], |done|, at - 1);
    ValidAllGrow(s.nodes, g.store.nodes, k, done, at - 1);
    ValidAllGrow(s.nodes, g.store.nodes, k, prev, at - 1);
    AllValidSnoc(g.store.nodes, k, done, g.index, at - 1);
    var done' := done + [g.index];
    EvalGrow(s.nodes, g.store.nodes, k, prev[c], at - 1, ins);
    if c < |done| {
      assert done'[c] == done[c];
      EvalGrow(s.nodes, g.store.nodes, k, done[c], at - 1, ins);
    } else if c == |done| {
      SetDefaultsEval(s, k, prev[c], c, at - 1, ins);
    }
  }

  /**
   * `write`: the saved tree gives every input the rule the tree had, with each unset output
   * replaced by the centre cell's state; the file is the three header lines and one line per
   * node, and `num_nodes` counts those lines.
   */
  lemma WriteEval(t: Tree, ins: seq<int>)
    requires TreeOk(t) && InRange(ins, t.numStates, NumParams(t))
    ensures var r := Write(t);
      var e := Eval(t.store.nodes, t.numStates, t.curndd, NumParams(t), ins);
      && r.tree.numStates == t.numStates && r.tree.numNeighbors == t.numNeighbors
      && Eval(r.tree.store.nodes, t.numStates, r.tree.curndd, NumParams(t), ins) == (if e >= 0 then e else ins[0])
      && |r.lines| == 3 + |r.tree.store.nodes|
      && r.lines[0] == "num_states=" + NatToString(t.numStates)
      && r.lines[1] == "num_neighbors=" + NatToString(t.numNeighbors)
      && r.lines[2] == "num_nodes=" + NatToString(|r.lines| - 3)
  {
    var t1 := CompleteDefaults(t);
    SetDefaultsEval(t.store, t.numStates, t.curndd, -1, NumParams(t), ins);
    ShrinkEval(t1, ins);
  }

  /** The node lines of a written file, read back with `split()[1:]` and `int`, give each node's children. */
  lemma WriteLinesReadBack(t: Tree, i: int)
    requires TreeOk(t) && 0 <= i < |Write(t).tree.store.nodes|
    ensures var nodes := Write(t).tree.store.nodes;
      NodeText.NodeChildren(Write(t).lines[3 + i]) == Some(nodes[i].children)
  {
    TextChildren(Write(t).tree.store.nodes[i]);
  }
}
