/**
 * RuleTree.py class `RuleTree`: a decision diagram over the cell inputs, built by adding
 * transition rules one at a time, shrunk to its reachable nodes from time to time, completed
 * with "stay in the centre state" defaults and written out as lines of text.
 */
module RuleTree {
  import opened Wrappers
  import opened Decimal
  import opened NodeText
  import opened NodeStore

  /** `numStates`, `numNeighbors`, the node store, the root `curndd` and `shrinksize`. */
  datatype Tree = Tree(numStates: nat, numNeighbors: nat, store: Store, curndd: int, shrinksize: nat)

  /** `numParams`: the neighbours plus the centre cell. */
  function NumParams(t: Tree): nat {
    t.numNeighbors + 1
  }

  /** The store is interned and the root is a tree over all the inputs. */
  predicate TreeOk(t: Tree) {
    Interned(t.store) && Valid(t.store.nodes, t.numStates, t.curndd, NumParams(t))
  }

  function Repeat(v: int, k: nat): (r: seq<int>)
    ensures |r| == k && forall i :: 0 <= i < k ==> r[i] == v
  {
    seq(k, _ => v)
  }

  // ---------------------------------------------------------------------------
  // _init_tree

  /** `_init_tree` from `level` (whose node is `cur`) up to `top`: each node has `k` copies of the one below. */
  function InitFrom(s: Store, k: nat, level: nat, top: nat, cur: int): (g: Got)
    requires Interned(s) && Valid(s.nodes, k, cur, level) && level <= top
    ensures Interned(g.store) && s.nodes <= g.store.nodes && Valid(g.store.nodes, k, g.index, top)
    decreases top - level
  {
    if level == top then Got(s, cur)
    else
      var g := GetNode(s, Node(level + 1, Repeat(cur, k)));
      ValidGrow(s.nodes, g.store.nodes, k, cur, level);
      NodeValid(g.store.nodes, k, g.index, level + 1, Repeat(cur, k));
      InitFrom(g.store, k, level + 1, top, g.index)
  }

  const InitialShrinkSize: nat := 100

  /** `RuleTree(numStates, numNeighbors)`: an empty store, then `_init_tree` from the unset leaf -1. */
  function NewTree(numStates: nat, numNeighbors: nat): (t: Tree)
    ensures TreeOk(t)
  {
    EmptyStoreInterned();
    var g := InitFrom(EmptyStore, numStates, 0, numNeighbors + 1, -1);
    Tree(numStates, numNeighbors, g.store, g.index, InitialShrinkSize)
  }

  // ---------------------------------------------------------------------------
  // _add and add_rule

  /** Every value of an input set is a state. */
  predicate InsetOk(inset: seq<int>, k: nat) {
    forall i :: 0 <= i < |inset| ==> 0 <= inset[i] < k
  }

  /**
   * `_add` stops the script on an out-of-range input value at any level it reaches; a level is
   * reached only if every level above it has a non-empty set of values.
   */
  predicate AddFails(inputs: seq<seq<int>>, k: nat, at: nat)
    requires at <= |inputs|
  {
    at > 0 &&
    (!InsetOk(inputs[at - 1], k) || (|inputs[at - 1]| > 0 && AddFails(inputs, k, at - 1)))
  }

  /** A node's children while they are being rebuilt. */
  datatype Built = Built(store: Store, children: seq<int>)

  /**
   * `_add(inputs, output, nddr, at)`: a leaf takes `output` only if it is unset; a node has the
   * children chosen by `inputs[at - 1]` rewritten, in order, and is interned again.
   */
  function Add(s: Store, k: nat, inputs: seq<seq<int>>, output: int, nddr: int, at: nat): (g: Got)
    requires Interned(s) && Valid(s.nodes, k, nddr, at)
    requires at <= |inputs| && !AddFails(inputs, k, at)
    ensures Interned(g.store) && s.nodes <= g.store.nodes && Valid(g.store.nodes, k, g.index, at)
    decreases at, 1
  {
    if at == 0 then Got(s, if nddr < 0 then output else nddr)
    else
      var b := AddEach(s, k, inputs, output, at, Children(s.nodes, k, nddr, at), 0);
      var g := GetNode(b.store, Node(at, b.children));
      ValidAllGrow(b.store.nodes, g.store.nodes, k, b.children, at - 1);
      NodeValid(g.store.nodes, k, g.index, at, b.children);
      g
  }

  /** The `for value in inset` loop of `_add`, from the `j`-th value on. */
  function AddEach(s: Store, k: nat, inputs: seq<seq<int>>, output: int, at: nat, children: seq<int>, j: nat): (b: Built)
    requires Interned(s) && 0 < at <= |inputs| && !AddFails(inputs, k, at)
    requires j <= |inputs[at - 1]|
    requires |children| == k && AllValid(s.nodes, k, children, at - 1)
    ensures Interned(b.store) && s.nodes <= b.store.nodes
    ensures |b.children| == k && AllValid(b.store.nodes, k, b.children, at - 1)
    decreases at, 0, |inputs[at - 1]| - j
  {
    var inset := inputs[at - 1];
    if j == |inset| then Built(s, children)
    else
      var v := inset[j];
      var g := Add(s, k, inputs, output, children[v], at - 1);
      ValidAllGrow(s.nodes, g.store.nodes, k, children, at - 1);
      AllValidUpdate(g.store.nodes, k, children, v, g.index, at - 1);
      AddEach(g.store, k, inputs, output, at, children[v := g.index], j + 1)
  }

  /** Python's `str` of a list of integers: `[1, 2, 3]`. */
  function IntListRepr(cs: seq<int>): string {
    "[" + CommaJoin(seq(|cs|, i requires 0 <= i < |cs| => IntToString(cs[i]))) + "]"
  }

  /** Python's `str` of a list of lists of integers, as the warnings print `inputs`. */
  function InputsRepr(inputs: seq<seq<int>>): string {
    "[" + CommaJoin(seq(|inputs|, i requires 0 <= i < |inputs| => IntListRepr(inputs[i]))) + "]"
  }

  function CommaJoin(parts: seq<string>): string {
    if |parts| == 0 then "" else if |parts| == 1 then parts[0] else parts[0] + ", " + CommaJoin(parts[1..])
  }

  /**
   * `add_rule(inputs, output)`: the length check, the rule added from the root, and a shrink
   * once more than `shrinksize` nodes have been created. The two `golly.warn` + `golly.exit`
   * paths become errors carrying the warning text.
   */
  function AddRule(t: Tree, inputs: seq<seq<int>>, output: int): (r: Result<Tree>)
    requires TreeOk(t)
    ensures r.Ok? ==> TreeOk(r.value) && r.value.numStates == t.numStates && r.value.numNeighbors == t.numNeighbors
  {
    var n := NumParams(t);
    if |inputs| != n then Err("Input length mismatch: " + InputsRepr(inputs))
    else if AddFails(inputs, t.numStates, n) then Err("Input out of range for: " + InputsRepr(inputs))
    else Ok(AddChecked(t, inputs, output))
  }

  /** The part of `add_rule` after both checks have passed. */
  function AddChecked(t: Tree, inputs: seq<seq<int>>, output: int): (t': Tree)
    requires TreeOk(t) && |inputs| == NumParams(t) && !AddFails(inputs, t.numStates, NumParams(t))
    ensures TreeOk(t') && t'.numStates == t.numStates && t'.numNeighbors == t.numNeighbors
  {
    var g := Add(t.store, t.numStates, inputs, output, t.curndd, NumParams(t));
    MaybeShrink(t.(store := g.store, curndd := g.index))
  }

  /** `if self.nodeSeq > self.shrinksize: self._shrink()`. */
  function MaybeShrink(t: Tree): (t': Tree)
    requires TreeOk(t)
    ensures TreeOk(t') && t'.numStates == t.numStates && t'.numNeighbors == t.numNeighbors
  {
    if t.store.nodeSeq > t.shrinksize then Shrink(t) else t
  }

  // ---------------------------------------------------------------------------
  // _recreate and _shrink

  /** `_recreate(oseq, nddr, lev)`: the tree at `nddr` of the old node list, rebuilt bottom-up in `s`. */
  function Recreate(oseq: seq<Node>, s: Store, k: nat, nddr: int, lev: nat): (g: Got)
    requires Interned(s) && Valid(oseq, k, nddr, lev)
    ensures Interned(g.store) && s.nodes <= g.store.nodes && Valid(g.store.nodes, k, g.index, lev)
    decreases lev, 1
  {
    if lev == 0 then Got(s, nddr)
    else
      var b := RecreateEach(oseq, s, k, lev, Children(oseq, k, nddr, lev), []);
      var g := GetNode(b.store, Node(lev, b.children));
      ValidAllGrow(b.store.nodes, g.store.nodes, k, b.children, lev - 1);
      NodeValid(g.store.nodes, k, g.index, lev, b.children);
      g
  }

  /** The `for i, value in enumerate(node)` loop of `_recreate`; `done` holds the rebuilt children so far. */
  function RecreateEach(oseq: seq<Node>, s: Store, k: nat, lev: nat, prev: seq<int>, done: seq<int>): (b: Built)
    requires Interned(s) && lev > 0 && |prev| == k && |done| <= k
    requires AllValid(oseq, k, prev, lev - 1)
    requires AllValid(s.nodes, k, done, lev - 1)
    ensures Interned(b.store) && s.nodes <= b.store.nodes
    ensures |b.children| == k && AllValid(b.store.nodes, k, b.children, lev - 1)
    decreases lev, 0, k - |done|
  {
    if |done| == k then Built(s, done)
    else
      var g := Recreate(oseq, s, k, prev[|done|], lev - 1);
      ValidAllGrow(s.nodes, g.store.nodes, k, done, lev - 1);
      AllValidSnoc(g.store.nodes, k, done, g.index, lev - 1);
      RecreateEach(oseq, g.store, k, lev, prev, done + [g.index])
  }

  /** `_shrink`: a fresh store holding only what is reachable from the root; `shrinksize` is twice its size. */
  function Shrink(t: Tree): (t': Tree)
    requires TreeOk(t)
    ensures TreeOk(t')
  {
    EmptyStoreInterned();
    var g := Recreate(t.store.nodes, EmptyStore, t.numStates, t.curndd, NumParams(t));
    t.(store := g.store, curndd := g.index, shrinksize := 2 * |g.store.nodes|)
  }

  // ---------------------------------------------------------------------------
  // _setdefaults and write

  /** `_setdefaults(nddr, off, at)`: an unset leaf becomes `off`, its position in the level-1 node. */
  function SetDefaults(s: Store, k: nat, nddr: int, off: int, at: nat): (g: Got)
    requires Interned(s) && Valid(s.nodes, k, nddr, at)
    ensures Interned(g.store) && s.nodes <= g.store.nodes && Valid(g.store.nodes, k, g.index, at)
    decreases at, 1
  {
    if at == 0 then Got(s, if nddr < 0 then off else nddr)
    else
      var b := SetDefaultsEach(s, k, at, Children(s.nodes, k, nddr, at), []);
      var g := GetNode(b.store, Node(at, b.children));
      ValidAllGrow(b.store.nodes, g.store.nodes, k, b.children, at - 1);
      NodeValid(g.store.nodes, k, g.index, at, b.children);
      g
  }

  /** The `for i, value in enumerate(node)` loop of `_setdefaults`: child `i` is completed with offset `i`. */
  function SetDefaultsEach(s: Store, k: nat, at: nat, prev: seq<int>, done: seq<int>): (b: Built)
    requires Interned(s) && at > 0 && |prev| == k && |done| <= k
    requires AllValid(s.nodes, k, prev, at - 1)
    requires AllValid(s.nodes, k, done, at - 1)
    ensures Interned(b.store) && s.nodes <= b.store.nodes
    ensures |b.children| == k && AllValid(b.store.nodes, k, b.children, at - 1)
    decreases at, 0, k - |done|
  {
    if |done| == k then Built(s, done)
    else
      var g := SetDefaults(s, k, prev[|done|], |done|, at - 1);
      ValidAllGrow(s.nodes, g.store.nodes, k, done, at - 1);
      ValidAllGrow(s.nodes, g.store.nodes, k, prev, at - 1);
      AllValidSnoc(g.store.nodes, k, done, g.index, at - 1);
      SetDefaultsEach(g.store, k, at, prev, done + [g.index])
  }

  /** `_setDefaults`: the whole tree completed from the root (the root's own offset, -1, is never used). */
  function CompleteDefaults(t: Tree): (t': Tree)
    requires TreeOk(t)
    ensures TreeOk(t')
  {
    var g := SetDefaults(t.store, t.numStates, t.curndd, -1, NumParams(t));
    t.(store := g.store, curndd := g.index)
  }

  /** The three header lines of a rule-tree file. */
  function Header(numStates: nat, numNeighbors: nat, numNodes: nat): seq<string> {
    ["num_states=" + NatToString(numStates),
     "num_neighbors=" + NatToString(numNeighbors),
     "num_nodes=" + NatToString(numNodes)]
  }

  /** The header, then one line per node in index order, each the node's stored (joined) text. */
  function TreeLines(numStates: nat, numNeighbors: nat, nodes: seq<Node>): seq<string> {
    Header(numStates, numNeighbors, |nodes|) + seq(|nodes|, i requires 0 <= i < |nodes| => Text(nodes[i]))
  }

  /** What `write` leaves behind: the tree, completed and shrunk, and the lines of the file. */
  datatype Saved = Saved(tree: Tree, lines: seq<string>)

  /** `write`: `_setDefaults`, `_shrink`, then the lines of the file. */
  function Write(t: Tree): (r: Saved)
    requires TreeOk(t)
    ensures TreeOk(r.tree) && r.tree.numStates == t.numStates && r.tree.numNeighbors == t.numNeighbors
    ensures |r.lines| == 3 + |r.tree.store.nodes|
    ensures r.lines[0] == "num_states=" + NatToString(t.numStates)
    ensures r.lines[1] == "num_neighbors=" + NatToString(t.numNeighbors)
    ensures r.lines[2] == "num_nodes=" + NatToString(|r.lines| - 3)
    ensures forall i :: 0 <= i < |r.tree.store.nodes| ==> r.lines[3 + i] == Text(r.tree.store.nodes[i])
  {
    var t2 := Shrink(CompleteDefaults(t));
    Saved(t2, TreeLines(t2.numStates, t2.numNeighbors, t2.store.nodes))
  }
}
