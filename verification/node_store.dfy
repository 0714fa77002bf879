/**
 * The hash-consing store shared by both rule-tree builders of RuleTree.py (`world`, `seq`,
 * `nodeSeq` and `_getNode`), and the meaning of a node: the function from cell inputs to
 * an output state that a tree of such nodes computes.
 */
module NodeStore {
  import opened Wrappers
  import opened Decimal
  import opened NodeText

  /**
   * A node of level `level > 0`: one child index per state of the input that level reads.
   * `Text` is the line RuleTree.py stores and writes for it.
   */
  datatype Node = Node(level: nat, children: seq<int>)

  function Text(n: Node): string {
    JoinedNode(n.level, n.children)
  }

  /** Two nodes have the same text exactly when they are the same node, so keying by either agrees. */
  lemma TextInjective(n: Node, m: Node)
    ensures Text(n) == Text(m) <==> n == m
  {
    if Text(n) == Text(m) {
      JoinedLevel(n.level, n.children);
      JoinedLevel(m.level, m.children);
      NatToStringInjective(n.level, m.level);
      JoinedChildren(n.level, n.children);
      JoinedChildren(m.level, m.children);
    }
  }

  /**
   * Interning by the appended string, as `_recur` does, is interning by value too: two nodes
   * have the same appended text exactly when they are equal.
   */
  lemma AppendedInjective(n: Node, m: Node)
    ensures AppendedNode(n.level, n.children) == AppendedNode(m.level, m.children) <==> n == m
  {
    if AppendedNode(n.level, n.children) == AppendedNode(m.level, m.children) {
      AppendedLevel(n.level, n.children);
      AppendedLevel(m.level, m.children);
      NatToStringInjective(n.level, m.level);
      AppendedChildren(n.level, n.children);
      AppendedChildren(m.level, m.children);
    }
  }

  /** Reading a stored line back with `split()[1:]` and `int` gives the node's children. */
  lemma TextChildren(n: Node)
    ensures NodeChildren(Text(n)) == Some(n.children)
  {
    JoinedChildren(n.level, n.children);
  }

  /** `world` maps each node to its index, `nodes` is `seq`, `nodeSeq` the next index. */
  datatype Store = Store(world: map<Node, nat>, nodes: seq<Node>, nodeSeq: nat)

  const EmptyStore: Store := Store(map[], [], 0)

  /** `world` and `seq` are inverse to each other, and `nodeSeq` is the number of nodes. */
  predicate Interned(s: Store) {
    && s.nodeSeq == |s.nodes|
    && (forall i :: 0 <= i < |s.nodes| ==> s.nodes[i] in s.world && s.world[s.nodes[i]] == i)
    && (forall n :: n in s.world ==> s.world[n] < |s.nodes| && s.nodes[s.world[n]] == n)
  }

  /** A store and an index into it (or, at level 0, an output state). */
  datatype Got = Got(store: Store, index: int)

  /**
   * `_getNode`: a string already present gives back its index and changes nothing; a new one
   * gets index `nodeSeq`, is appended to `seq`, and `nodeSeq` goes up by one.
   */
  function GetNode(s: Store, node: Node): (g: Got)
    requires Interned(s)
    ensures Interned(g.store)
    ensures 0 <= g.index < |g.store.nodes| && g.store.nodes[g.index] == node
    ensures s.nodes <= g.store.nodes
    ensures node in s.world ==> g.store == s && g.index == s.world[node]
    ensures node !in s.world ==> g.store.nodes == s.nodes + [node] && g.index == s.nodeSeq
  {
    if node in s.world then Got(s, s.world[node])
    else
      var s' := Store(s.world[node := s.nodeSeq], s.nodes + [node], s.nodeSeq + 1);
      assert forall n :: n in s.world ==> n != node && s'.nodes[s'.world[n]] == n;
      Got(s', s.nodeSeq)
  }

  lemma EmptyStoreInterned()
    ensures Interned(EmptyStore)
  {
  }

  /** Interning never stores the same node twice. */
  lemma InternedDistinct(s: Store, i: int, j: int)
    requires Interned(s) && 0 <= i < |s.nodes| && 0 <= j < |s.nodes| && i != j
    ensures s.nodes[i] != s.nodes[j]
  {
  }

  // ---------------------------------------------------------------------------
  // Trees of nodes and what they compute

  /**
   * `idx` is a node of level `lev` of a tree with `k` states: at level 0 any value (an output
   * state, or -1 for unset); above, a stored node of that level with `k` children, each a tree
   * one level down.
   */
  predicate Valid(nodes: seq<Node>, k: nat, idx: int, lev: nat)
    decreases lev
  {
    lev == 0 ||
    (&& 0 <= idx < |nodes|
     && nodes[idx].level == lev
     && |nodes[idx].children| == k
     && forall i :: 0 <= i < k ==> Valid(nodes, k, nodes[idx].children[i], lev - 1))
  }

  /** Every one of `cs` is a tree of level `lev`. */
  predicate AllValid(nodes: seq<Node>, k: nat, cs: seq<int>, lev: nat) {
    forall i :: 0 <= i < |cs| ==> Valid(nodes, k, cs[i], lev)
  }

  /** The children of a stored node (what `map(int, seq[idx].split()[1:])` reads, by `TextChildren`). */
  function Children(nodes: seq<Node>, k: nat, idx: int, lev: nat): (cs: seq<int>)
    requires Valid(nodes, k, idx, lev) && lev > 0
    ensures |cs| == k && AllValid(nodes, k, cs, lev - 1)
  {
    nodes[idx].children
  }

  /** The indices `lo` up to but not including `hi`. */
  function Span(lo: int, hi: int): (r: set<int>)
    ensures forall j :: j in r <==> lo <= j < hi
    decreases hi - lo
  {
    if lo >= hi then {} else {lo} + Span(lo + 1, hi)
  }

  /** The indices of the stored nodes the tree at `idx` (of level `lev`) is built from, itself included. */
  function Reach(nodes: seq<Node>, k: nat, idx: int, lev: nat): (r: set<int>)
    requires Valid(nodes, k, idx, lev)
    ensures forall j :: j in r ==> 0 <= j < |nodes|
    decreases lev, 0
  {
    if lev == 0 then {} else {idx} + ReachAll(nodes, k, Children(nodes, k, idx, lev), lev - 1)
  }

  /** The nodes the trees `cs` (each of level `lev`) are built from. */
  function ReachAll(nodes: seq<Node>, k: nat, cs: seq<int>, lev: nat): (r: set<int>)
    requires AllValid(nodes, k, cs, lev)
    ensures forall j :: j in r ==> 0 <= j < |nodes|
    decreases lev, 1, |cs|
  {
    if |cs| == 0 then {} else ReachAll(nodes, k, cs[..|cs| - 1], lev) + Reach(nodes, k, cs[|cs| - 1], lev)
  }

  /** Appending nodes changes no tree's set of nodes. */
  lemma {:induction false} ReachGrow(nodes: seq<Node>, nodes': seq<Node>, k: nat, idx: int, lev: nat)
    requires nodes <= nodes' && Valid(nodes, k, idx, lev)
    ensures Valid(nodes', k, idx, lev)
    ensures Reach(nodes', k, idx, lev) == Reach(nodes, k, idx, lev)
    decreases lev, 0
  {
    ValidGrow(nodes, nodes', k, idx, lev);
    if lev > 0 {
      assert nodes'[idx] == nodes[idx];
      ReachAllGrow(nodes, nodes', k, Children(nodes, k, idx, lev), lev - 1);
    }
  }

  lemma {:induction false} ReachAllGrow(nodes: seq<Node>, nodes': seq<Node>, k: nat, cs: seq<int>, lev: nat)
    requires nodes <= nodes' && AllValid(nodes, k, cs, lev)
    ensures AllValid(nodes', k, cs, lev)
    ensures ReachAll(nodes', k, cs, lev) == ReachAll(nodes, k, cs, lev)
    decreases lev, 1, |cs|
  {
    ValidAllGrow(nodes, nodes', k, cs, lev);
    if |cs| > 0 {
      ReachAllGrow(nodes, nodes', k, cs[..|cs| - 1], lev);
      ReachGrow(nodes, nodes', k, cs[|cs| - 1], lev);
    }
  }

  /** Cell inputs a tree of `k` states and `lev` levels can read. */
  predicate InRange(ins: seq<int>, k: nat, lev: nat) {
    |ins| >= lev && forall j :: 0 <= j < lev ==> 0 <= ins[j] < k
  }

  /** The output a tree gives for `ins`: level `lev` branches on `ins[lev - 1]`; -1 means unset. */
  function Eval(nodes: seq<Node>, k: nat, idx: int, lev: nat, ins: seq<int>): int
    requires Valid(nodes, k, idx, lev) && InRange(ins, k, lev)
    decreases lev
  {
    if lev == 0 then idx else Eval(nodes, k, Children(nodes, k, idx, lev)[ins[lev - 1]], lev - 1, ins)
  }

  /** Appending nodes leaves every tree valid. */
  lemma {:induction false} ValidGrow(nodes: seq<Node>, nodes': seq<Node>, k: nat, idx: int, lev: nat)
    requires nodes <= nodes' && Valid(nodes, k, idx, lev)
    ensures Valid(nodes', k, idx, lev)
    decreases lev
  {
    if lev > 0 {
      var cs := Children(nodes, k, idx, lev);
      assert nodes'[idx] == nodes[idx];
      forall i | 0 <= i < k
        ensures Valid(nodes', k, cs[i], lev - 1)
      {
        ValidGrow(nodes, nodes', k, cs[i], lev - 1);
      }
    }
  }

  /** Appending nodes changes nothing any existing tree computes. */
  lemma {:induction false} EvalGrow(nodes: seq<Node>, nodes': seq<Node>, k: nat, idx: int, lev: nat, ins: seq<int>)
    requires nodes <= nodes' && Valid(nodes, k, idx, lev) && InRange(ins, k, lev)
    ensures Valid(nodes', k, idx, lev)
    ensures Eval(nodes', k, idx, lev, ins) == Eval(nodes, k, idx, lev, ins)
    decreases lev
  {
    ValidGrow(nodes, nodes', k, idx, lev);
    if lev > 0 {
      var cs := Children(nodes, k, idx, lev);
      assert nodes'[idx] == nodes[idx];
      EvalGrow(nodes, nodes', k, cs[ins[lev - 1]], lev - 1, ins);
    }
  }

  /** A freshly stored node whose children are trees one level down is a tree of its level. */
  lemma NodeValid(nodes: seq<Node>, k: nat, idx: int, lev: nat, cs: seq<int>)
    requires lev > 0 && 0 <= idx < |nodes| && nodes[idx] == Node(lev, cs)
    requires |cs| == k && AllValid(nodes, k, cs, lev - 1)
    ensures Valid(nodes, k, idx, lev)
    ensures Children(nodes, k, idx, lev) == cs
  {
  }

  /** All of `cs` stay trees of level `lev` when nodes are appended. */
  lemma ValidAllGrow(nodes: seq<Node>, nodes': seq<Node>, k: nat, cs: seq<int>, lev: nat)
    requires nodes <= nodes' && AllValid(nodes, k, cs, lev)
    ensures AllValid(nodes', k, cs, lev)
  {
    forall i | 0 <= i < |cs|
      ensures Valid(nodes', k, cs[i], lev)
    {
      ValidGrow(nodes, nodes', k, cs[i], lev);
    }
  }

  /** Replacing one tree of a list by another keeps the list valid. */
  lemma AllValidUpdate(nodes: seq<Node>, k: nat, cs: seq<int>, v: int, x: int, lev: nat)
    requires AllValid(nodes, k, cs, lev) && 0 <= v < |cs| && Valid(nodes, k, x, lev)
    ensures AllValid(nodes, k, cs[v := x], lev)
  {
  }

  lemma AllValidSnoc(nodes: seq<Node>, k: nat, cs: seq<int>, x: int, lev: nat)
    requires AllValid(nodes, k, cs, lev) && Valid(nodes, k, x, lev)
    ensures AllValid(nodes, k, cs + [x], lev)
  {
  }

  /**
   * Interning a node whose children are trees gives a tree of its level, which computes what
   * the child chosen by its own input computes.
   */
  lemma EvalNewNode(s: Store, k: nat, lev: nat, cs: seq<int>, ins: seq<int>)
    requires Interned(s) && lev > 0 && |cs| == k && AllValid(s.nodes, k, cs, lev - 1) && InRange(ins, k, lev)
    ensures var g := GetNode(s, Node(lev, cs));
      && Valid(g.store.nodes, k, g.index, lev)
      && Eval(g.store.nodes, k, g.index, lev, ins) == Eval(s.nodes, k, cs[ins[lev - 1]], lev - 1, ins)
  {
    var g := GetNode(s, Node(lev, cs));
    ValidAllGrow(s.nodes, g.store.nodes, k, cs, lev - 1);
    NodeValid(g.store.nodes, k, g.index, lev, cs);
    EvalGrow(s.nodes, g.store.nodes, k, cs[ins[lev - 1]], lev - 1, ins);
  }
}
