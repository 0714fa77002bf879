/**
 * The layer array of wxlayer.cpp: `layer[0..numlayers)` with the current layer at `currindex`,
 * and the operations that insert (`AddLayer`, also for `CloneLayer` and `DuplicateLayer`),
 * delete (`DeleteLayer`, `DeleteOtherLayers`) and reorder (`MoveLayer`) its entries, together
 * with the clone bookkeeping each one runs through `Layer::Layer` and `Layer::~Layer`.
 */
module Layers {
  import opened Clones

  /**
   * The globals `layer[0..numlayers)`, `currindex`, `numclones` and `cloneavail`; `nextKey`
   * stands for the object the next `new Layer()` returns.
   */
  datatype Bank = Bank(layers: seq<Layer>, currindex: int, numclones: int, cloneavail: seq<bool>, nextKey: nat)

  /** The globals at start-up: no layer, `currindex == -1`, `numclones == 0`. */
  const Start: Bank := Bank([], -1, 0, [false, false, false, false, false, false, false, false, false, false], 0)

  /**
   * What the operations keep: at most `MAX_LAYERS` layers; `currindex` indexes one of them
   * (-1 while there is none); once a layer exists, the clone bookkeeping agrees with it.
   */
  predicate Wf(b: Bank) {
    && |b.layers| <= MaxLayers
    && |b.cloneavail| == MaxLayers
    && if |b.layers| == 0 then b.currindex == -1 && b.numclones == 0
       else 0 <= b.currindex < |b.layers| && ClonesOk(b.layers, b.numclones, b.cloneavail)
  }

  lemma StartWf()
    ensures Wf(Start) && |Start.layers| == 0
  {
  }

  /** The layer objects of `ls` are listed by `Keys` in order. */
  lemma {:induction false} KeysAt(ls: seq<Layer>, j: int)
    requires 0 <= j < |ls|
    ensures Keys(ls)[j] == ls[j].key
  {
    if j > 0 {
      KeysAt(ls[1..], j - 1);
    }
  }

  /** Changing a layer's clone id leaves the layer objects as they were. */
  lemma KeysUpdate(ls: seq<Layer>, c: int, id: nat)
    requires 0 <= c < |ls|
    ensures Keys(ls[c := ls[c].(cloneid := id)]) == Keys(ls)
  {
    var u := ls[c := ls[c].(cloneid := id)];
    forall j | 0 <= j < |ls|
      ensures Keys(u)[j] == Keys(ls)[j]
    {
      KeysAt(u, j);
      KeysAt(ls, j);
    }
  }

  // ---------------------------------------------------------------------------
  // AddLayer

  /** What `Layer::Layer` decides after the first layer: the new id, the current layer's id, `numclones`, `cloneavail`. */
  datatype Made = Made(newid: nat, currid: nat, numclones: int, cloneavail: seq<bool>)

  /**
   * `Layer::Layer` when layers exist, with `cur` the current layer: a plain or duplicated layer
   * is no clone; the first clone of a universe takes a fresh id for both layers and counts
   * two clones; a clone of a clone shares its id and counts one.
   */
  function Construct(cur: Layer, numclones: int, avail: seq<bool>, cloning: bool): (m: Made)
    requires |avail| == MaxLayers
    ensures !cloning ==> m == Made(0, cur.cloneid, numclones, avail)
    ensures cloning ==> 1 <= m.newid == m.currid < MaxLayers || m.newid == m.currid == cur.cloneid
    ensures cloning && cur.cloneid > 0 ==> m == Made(cur.cloneid, cur.cloneid, numclones + 1, avail)
    ensures cloning && cur.cloneid == 0 ==>
      m.numclones == numclones + 2 && |m.cloneavail| == MaxLayers && !m.cloneavail[m.newid]
  {
    if !cloning then Made(0, cur.cloneid, numclones, avail)
    else if cur.cloneid == 0 then
      var t := GetUniqueCloneId(avail);
      Made(t.id, t.id, numclones + 2, t.avail)
    else Made(cur.cloneid, cur.cloneid, numclones + 1, avail)
  }

  /** `cloneavail` as the very first layer sets it: every id from 1 on is free. */
  const FreshAvail: seq<bool> := [false, true, true, true, true, true, true, true, true, true]

  /** Inserting `x` after `c` and changing `ls[c]` to `y` counts `x` and `y` instead of `ls[c]`. */
  lemma AddCounts(ls: seq<Layer>, c: int, y: Layer, x: Layer)
    requires 0 <= c < |ls|
    ensures forall id: nat :: (CountId(Insert(ls[c := y], c + 1, x), id) ==
      CountId(ls, id) - (if ls[c].cloneid == id then 1 else 0) + (if y.cloneid == id then 1 else 0) + (if x.cloneid == id then 1 else 0))
  {
    forall id: nat
      ensures CountId(Insert(ls[c := y], c + 1, x), id) ==
        CountId(ls, id) - (if ls[c].cloneid == id then 1 else 0) + (if y.cloneid == id then 1 else 0) + (if x.cloneid == id then 1 else 0)
    {
      CountUpdate(ls, c, y, id);
      CountInsert(ls[c := y], c + 1, x, id);
    }
  }

  /** Inserting and changing layers with small ids keeps every id small. */
  lemma AddBound(ls: seq<Layer>, c: int, y: Layer, x: Layer)
    requires 0 <= c < |ls| && y.cloneid <= MaxLayers / 2 && x.cloneid <= MaxLayers / 2
    requires SmallIds(ls)
    ensures SmallIds(Insert(ls[c := y], c + 1, x))
  {
    var r := Insert(ls[c := y], c + 1, x);
    forall j | 0 <= j < |r|
      ensures r[j].cloneid <= MaxLayers / 2
    {
      if j > c + 1 {
        assert r[j] == ls[j - 1];
      } else if j < c {
        assert r[j] == ls[j];
      }
    }
  }

  /** Adding a layer after the current one keeps the clone bookkeeping consistent. */
  lemma AddClones(ls: seq<Layer>, c: int, numclones: int, avail: seq<bool>, cloning: bool, key: nat)
    requires ClonesOk(ls, numclones, avail) && 0 <= c < |ls| && |ls| < MaxLayers
    ensures var m := Construct(ls[c], numclones, avail, cloning);
      ClonesOk(Insert(ls[c := ls[c].(cloneid := m.currid)], c + 1, Layer(key, m.newid)), m.numclones, m.cloneavail)
  {
    var m := Construct(ls[c], numclones, avail, cloning);
    if cloning && ls[c].cloneid == 0 {
      CloneIdFree(ls, numclones, avail, c);
    }
    CountHas(ls, c);
    var r := Insert(ls[c := ls[c].(cloneid := m.currid)], c + 1, Layer(key, m.newid));
    AddCounts(ls, c, ls[c].(cloneid := m.currid), Layer(key, m.newid));
    AddBound(ls, c, ls[c].(cloneid := m.currid), Layer(key, m.newid));
    assert |m.cloneavail| == MaxLayers;
    assert m.numclones == |r| - CountId(r, 0);
    assert forall id :: 1 <= id < MaxLayers ==> (m.cloneavail[id] <==> CountId(r, id) == 0);
    assert forall id :: 1 <= id < MaxLayers ==> CountId(r, id) != 1;
  }

  /** Adding the very first layer: one non-clone, every id free. */
  lemma FirstClones(key: nat)
    ensures ClonesOk([Layer(key, 0)], 0, FreshAvail)
  {
    var ls := [Layer(key, 0)];
    assert ls[1..] == [];
    assert forall id :: 1 <= id < MaxLayers ==> FreshAvail[id] && CountId(ls, id) == 0;
  }

  /**
   * `AddLayer` (and `CloneLayer`, `DuplicateLayer`, which call it with `cloning` set or not):
   * nothing at `MAX_LAYERS`; otherwise a new layer object goes in at `currindex + 1`, which
   * becomes current.
   */
  function AddLayer(b: Bank, cloning: bool): (r: Bank)
    requires Wf(b)
    ensures Wf(r)
    ensures |b.layers| >= MaxLayers ==> r == b
    ensures |b.layers| < MaxLayers ==>
      && |r.layers| == |b.layers| + 1 && r.currindex == b.currindex + 1
      && r.layers[r.currindex].key == b.nextKey
      && Keys(Remove(r.layers, r.currindex)) == Keys(b.layers)
      && r.nextKey == b.nextKey + 1
    ensures 0 < |b.layers| < MaxLayers ==>
      forall j :: 0 <= j < |b.layers| && j != b.currindex ==>
        r.layers[if j <= b.currindex then j else j + 1] == b.layers[j]
  {
    if |b.layers| >= MaxLayers then b
    else if |b.layers| == 0 then
      FirstClones(b.nextKey);
      Bank([Layer(b.nextKey, 0)], 0, b.numclones, FreshAvail, b.nextKey + 1)
    else
      var c := b.currindex;
      var m := Construct(b.layers[c], b.numclones, b.cloneavail, cloning);
      var u := b.layers[c := b.layers[c].(cloneid := m.currid)];
      AddClones(b.layers, c, b.numclones, b.cloneavail, cloning, b.nextKey);
      KeysUpdate(b.layers, c, m.currid);
      assert Remove(Insert(u, c + 1, Layer(b.nextKey, m.newid)), c + 1) == u;
      InsertAfter(b.layers, c, u[c], Layer(b.nextKey, m.newid));
      Bank(Insert(u, c + 1, Layer(b.nextKey, m.newid)), c + 1, m.numclones, m.cloneavail, b.nextKey + 1)
  }

  /** Replacing layer `c` and inserting after it moves the layers above `c` up by one and keeps the rest. */
  lemma InsertAfter(ls: seq<Layer>, c: int, y: Layer, x: Layer)
    requires 0 <= c < |ls|
    ensures forall j :: 0 <= j < |ls| && j != c ==>
      Insert(ls[c := y], c + 1, x)[if j <= c then j else j + 1] == ls[j]
  {
  }

  /**
   * The clone ids after `AddLayer`: a plain layer is no clone; a clone shares the id of the
   * layer it was made from, which is non-zero and, for a first clone, was unused before; and
   * `numclones` grows by 2 for a first clone, 1 for a clone of a clone, 0 otherwise.
   */
  lemma AddLayerClones(b: Bank, cloning: bool)
    requires Wf(b) && 0 < |b.layers| < MaxLayers
    ensures var r := AddLayer(b, cloning);
      var old_ := b.layers[b.currindex];
      var made := r.layers[r.currindex];
      && (!cloning ==> made.cloneid == 0 && r.numclones == b.numclones)
      && (cloning ==> made.cloneid > 0 && r.layers[b.currindex].cloneid == made.cloneid)
      && (cloning && old_.cloneid == 0 ==> CountId(b.layers, made.cloneid) == 0 && r.numclones == b.numclones + 2)
      && (cloning && old_.cloneid > 0 ==> made.cloneid == old_.cloneid && r.numclones == b.numclones + 1)
  {
    if cloning && b.layers[b.currindex].cloneid == 0 {
      CloneIdFree(b.layers, b.numclones, b.cloneavail, b.currindex);
    }
  }

  // ---------------------------------------------------------------------------
  // DeleteLayer

  /**
   * `DeleteLayer`: nothing with one layer or none; otherwise the current layer is destroyed
   * and removed, and the one below it (or the new first one) becomes current.
   */
  function DeleteLayer(b: Bank): (r: Bank)
    requires Wf(b)
    ensures Wf(r)
    ensures |b.layers| <= 1 ==> r == b
    ensures |b.layers| > 1 ==>
      && |r.layers| == |b.layers| - 1
      && Keys(r.layers) == Remove(Keys(b.layers), b.currindex)
      && r.currindex == (if b.currindex > 0 then b.currindex - 1 else 0)
    ensures |b.layers| > 1 ==>
      var x := b.layers[b.currindex].cloneid;
      var reset := x > 0 && CountId(b.layers, x) <= 2;
      forall j :: 0 <= j < |r.layers| ==>
        var o := Remove(b.layers, b.currindex)[j];
        r.layers[j] == (if reset && o.cloneid == x then o.(cloneid := 0) else o)
  {
    if |b.layers| <= 1 then b
    else
      var c := b.currindex;
      DestroyRemove(b.layers, c, b.numclones, b.cloneavail);
      CountRemove(b.layers, c, 0);
      var k := Destroy(b.layers, c, b.numclones, b.cloneavail);
      DestroyOthers(b.layers, c, b.numclones, b.cloneavail);
      Bank(Remove(k.layers, c), if c > 0 then c - 1 else c, k.numclones, k.avail, b.nextKey)
  }

  /**
   * The layers left after destroying and removing layer `i`: each is the one it was, except that
   * when the group of `i` falls to one, the partner becomes a non-clone.
   */
  lemma DestroyOthers(ls: seq<Layer>, i: int, numclones: int, avail: seq<bool>)
    requires 0 <= i < |ls| && |avail| == MaxLayers && ls[i].cloneid < MaxLayers
    ensures var x := ls[i].cloneid;
      var reset := x > 0 && CountId(ls, x) <= 2;
      var k := Remove(Destroy(ls, i, numclones, avail).layers, i);
      forall j :: 0 <= j < |k| ==>
        var o := Remove(ls, i)[j];
        k[j] == (if reset && o.cloneid == x then o.(cloneid := 0) else o)
  {
    var x := ls[i].cloneid;
    if x > 0 && CountId(ls, x) <= 2 {
      RemoveReset(ls, i, x);
      forall j | 0 <= j < |ls| - 1
        ensures Unclone(Remove(ls, i), x)[j] ==
          (if Remove(ls, i)[j].cloneid == x then Remove(ls, i)[j].(cloneid := 0) else Remove(ls, i)[j])
      {
        UncloneAt(Remove(ls, i), x, j);
      }
    }
  }

  /**
   * The clone bookkeeping after `DeleteLayer`: deleting a non-clone changes nothing; a clone in
   * a group of more than two is uncounted; the last but one is uncounted with its partner,
   * whose id goes back to 0, and the id is free again.
   */
  lemma DeleteLayerClones(b: Bank)
    requires Wf(b) && |b.layers| > 1
    ensures var r := DeleteLayer(b);
      var x := b.layers[b.currindex].cloneid;
      && (x == 0 ==> r.numclones == b.numclones)
      && (x > 0 && CountId(b.layers, x) > 2 ==> r.numclones == b.numclones - 1 && CountId(r.layers, x) == CountId(b.layers, x) - 1)
      && (x > 0 && CountId(b.layers, x) <= 2 ==> r.numclones == b.numclones - 2 && CountId(r.layers, x) == 0 && r.cloneavail[x])
  {
    var x := b.layers[b.currindex].cloneid;
    CountRemove(b.layers, b.currindex, x);
    if x > 0 && CountId(b.layers, x) <= 2 {
      RemoveReset(b.layers, b.currindex, x);
      CountUnclone(Remove(b.layers, b.currindex), x, x);
    }
  }

  // ---------------------------------------------------------------------------
  // DeleteOtherLayers

  /** A single layer whose bookkeeping is consistent is no clone, and every id is free. */
  lemma SingleLayer(ls: seq<Layer>, numclones: int, avail: seq<bool>)
    requires ClonesOk(ls, numclones, avail) && |ls| == 1
    ensures ls[0].cloneid == 0 && numclones == 0
    ensures forall id :: 1 <= id < MaxLayers ==> avail[id]
  {
    assert ls[1..] == [];
    var x := ls[0].cloneid;
    assert CountId(ls, x) == 1;
  }

  /**
   * One pass of the deleting loop with `i` not the current index: `delete layer[i]` while the
   * array is whole, `numlayers--`, and the shift of the one layer above `i`, if any.
   */
  method DeleteAt(live: seq<Layer>, i: int, numclones: int, avail: seq<bool>)
    returns (next: seq<Layer>, numclones': int, avail': seq<bool>)
    requires ClonesOk(live, numclones, avail) && 0 <= i < |live| && |live| - 2 <= i
    ensures ClonesOk(next, numclones', avail') && Keys(next) == Remove(Keys(live), i)
  {
    DestroyRemove(live, i, numclones, avail);
    CountRemove(live, i, 0);
    var k := Destroy(live, i, numclones, avail);
    var n := |live| - 1;
    next := k.layers[..n];
    if i < n {
      next := next[i := k.layers[i + 1]];
    }
    assert next == Remove(k.layers, i);
    numclones', avail' := k.numclones, k.avail;
  }

  /** The layer objects left after one pass of the deleting loop at `i`, which is not `c`. */
  lemma KeysStep(keys: seq<nat>, c: int, i: int, before: seq<nat>, after: seq<nat>)
    requires 0 <= c < |keys| && 0 <= i < |keys| && i != c
    requires i > c ==> before == keys[..i + 1]
    requires i < c ==> before == keys[..i + 1] + [keys[c]]
    requires after == Remove(before, i)
    ensures i > c ==> after == keys[..i]
    ensures i < c ==> after == keys[..i] + [keys[c]]
  {
    if i > c {
      assert Remove(keys[..i + 1], i) == keys[..i];
    } else {
      assert Remove(keys[..i + 1] + [keys[c]], i) == keys[..i] + [keys[c]];
    }
  }

  /**
   * `DeleteOtherLayers` once the user has agreed to lose unsaved changes: the `while` loop
   * destroys every layer but the current one, from the top down; each destructor runs with the
   * array still whole, then the array closes up (only the current layer can need a shift).
   * The current layer is left alone at index 0, no longer a clone.
   */
  method DeleteOtherLayers(b: Bank) returns (r: Bank)
    requires Wf(b)
    ensures Wf(r)
    ensures |b.layers| <= 1 ==> r == b
    ensures |b.layers| > 1 ==>
      && |r.layers| == 1 && r.currindex == 0 && r.nextKey == b.nextKey
      && r.layers[0].key == b.layers[b.currindex].key
      && r.layers[0].cloneid == 0 && r.numclones == 0
      && (forall id :: 1 <= id < MaxLayers ==> r.cloneavail[id])
  {
    if |b.layers| <= 1 {
      return b;
    }
    var c := b.currindex;
    ghost var keys := Keys(b.layers);
    var live, numclones, avail := b.layers, b.numclones, b.cloneavail;
    var i := |live|;
    while |live| > 1
      invariant 0 <= i <= |b.layers|
      invariant ClonesOk(live, numclones, avail)
      invariant i > c ==> |live| == i && Keys(live) == keys[..i]
      invariant i <= c ==> |live| == i + 1 && Keys(live) == keys[..i] + [keys[c]]
      decreases i
    {
      i := i - 1;
      if i != c {
        ghost var before := Keys(live);
        live, numclones, avail := DeleteAt(live, i, numclones, avail);
        KeysStep(keys, c, i, before, Keys(live));
      } else {
        assert keys[..i + 1] == keys[..i] + [keys[c]];
      }
    }
    KeysAt(live, 0);
    KeysAt(b.layers, c);
    SingleLayer(live, numclones, avail);
    r := Bank(live, 0, numclones, avail, b.nextKey);
  }

  // ---------------------------------------------------------------------------
  // MoveLayer

  /** `s` with its element at `f` taken out and put back at `t`. */
  function Moved<T>(s: seq<T>, f: int, t: int): (r: seq<T>)
    requires 0 <= f < |s| && 0 <= t < |s|
    ensures |r| == |s|
  {
    Insert(Remove(s, f), t, s[f])
  }

  /** Where each element of a moved sequence comes from. */
  lemma MovedAt<T>(s: seq<T>, f: int, t: int)
    requires 0 <= f < |s| && 0 <= t < |s|
    ensures Moved(s, f, t)[t] == s[f]
    ensures forall k :: 0 <= k < f && k < t ==> Moved(s, f, t)[k] == s[k]
    ensures forall k :: f < k < |s| && t < k ==> Moved(s, f, t)[k] == s[k]
    ensures forall k :: f <= k < t ==> Moved(s, f, t)[k] == s[k + 1]
    ensures forall k :: t < k <= f ==> Moved(s, f, t)[k] == s[k - 1]
  {
    var rem := Remove(s, f);
    assert forall j :: 0 <= j < f ==> rem[j] == s[j];
    assert forall j :: f <= j < |rem| ==> rem[j] == s[j + 1];
  }

  /** The moved element lands at `t` and the others keep their relative order. */
  lemma MovedShape<T>(s: seq<T>, f: int, t: int)
    requires 0 <= f < |s| && 0 <= t < |s|
    ensures Moved(s, f, t)[t] == s[f] && Remove(Moved(s, f, t), t) == Remove(s, f)
  {
    assert Remove(Moved(s, f, t), t) == Remove(s, f);
  }

  /** Moving a layer back undoes the move. */
  lemma MoveBack<T>(s: seq<T>, f: int, t: int)
    requires 0 <= f < |s| && 0 <= t < |s|
    ensures Moved(Moved(s, f, t), t, f) == s
  {
    MovedShape(s, f, t);
    assert Insert(Remove(s, f), f, s[f]) == s;
  }

  /** A move keeps every clone group and so the bookkeeping. */
  lemma MoveClones(ls: seq<Layer>, numclones: int, avail: seq<bool>, f: int, t: int)
    requires ClonesOk(ls, numclones, avail) && 0 <= f < |ls| && 0 <= t < |ls|
    ensures ClonesOk(Moved(ls, f, t), numclones, avail)
  {
    forall id: nat
      ensures CountId(Moved(ls, f, t), id) == CountId(ls, id)
    {
      CountRemove(ls, f, id);
      CountInsert(Remove(ls, f), t, ls[f], id);
    }
    MovedAt(ls, f, t);
  }

  /**
   * `MoveLayer(fromindex, toindex)`: nothing if the indices are equal or either is outside the
   * array; otherwise the layer at `fromindex` is saved, the layers between shift one place
   * towards it, the saved layer goes in at `toindex`, and it becomes current.
   */
  method MoveLayer(b: Bank, fromindex: int, toindex: int) returns (r: Bank)
    requires Wf(b)
    ensures Wf(r)
    ensures fromindex == toindex || !(0 <= fromindex < |b.layers|) || !(0 <= toindex < |b.layers|) ==> r == b
    ensures fromindex != toindex && 0 <= fromindex < |b.layers| && 0 <= toindex < |b.layers| ==>
      && r == b.(layers := Moved(b.layers, fromindex, toindex), currindex := toindex)
      && r.layers[toindex] == b.layers[fromindex]
      && Remove(r.layers, toindex) == Remove(b.layers, fromindex)
  {
    if fromindex == toindex || fromindex < 0 || fromindex >= |b.layers| || toindex < 0 || toindex >= |b.layers| {
      return b;
    }
    var ls := b.layers;
    var save := ls[fromindex];
    if fromindex > toindex {
      var i := fromindex;
      while i > toindex
        invariant toindex <= i <= fromindex && |ls| == |b.layers|
        invariant forall k :: 0 <= k <= i ==> ls[k] == b.layers[k]
        invariant forall k :: i < k <= fromindex ==> ls[k] == b.layers[k - 1]
        invariant forall k :: fromindex < k < |ls| ==> ls[k] == b.layers[k]
      {
        ls := ls[i := ls[i - 1]];
        i := i - 1;
      }
      ls := ls[toindex := save];
      MovedAt(b.layers, fromindex, toindex);
    } else {
      var i := fromindex;
      while i < toindex
        invariant fromindex <= i <= toindex && |ls| == |b.layers|
        invariant forall k :: 0 <= k < fromindex ==> ls[k] == b.layers[k]
        invariant forall k :: fromindex <= k < i ==> ls[k] == b.layers[k + 1]
        invariant forall k :: i <= k < |ls| ==> ls[k] == b.layers[k]
      {
        ls := ls[i := ls[i + 1]];
        i := i + 1;
      }
      ls := ls[toindex := save];
      MovedAt(b.layers, fromindex, toindex);
    }
    assert ls == Moved(b.layers, fromindex, toindex);
    MovedShape(b.layers, fromindex, toindex);
    MoveClones(b.layers, b.numclones, b.cloneavail, fromindex, toindex);
    r := b.(layers := ls, currindex := toindex);
  }
}
