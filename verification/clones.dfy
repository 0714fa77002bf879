/**
 * Clone bookkeeping of wxlayer.cpp: layers that share one universe carry the same non-zero
 * `cloneid`, `numclones` counts the layers that are clones, and `cloneavail` says which ids
 * are free. `GetUniqueCloneID` hands out ids, `Layer::Layer` counts new clones and
 * `Layer::~Layer` uncounts them.
 */
module Clones {
  /** `MAX_LAYERS`; wxlayer.h, which declares it, is not part of this model. */
  const MaxLayers: nat := 10

  /** A layer as the array bookkeeping sees it: which `Layer` object it is, and its clone id (0 if none). */
  datatype Layer = Layer(key: nat, cloneid: nat)

  /** How many of `ls` have clone id `id`. */
  function CountId(ls: seq<Layer>, id: nat): (c: nat)
    ensures c <= |ls|
  {
    if |ls| == 0 then 0 else (if ls[0].cloneid == id then 1 else 0) + CountId(ls[1..], id)
  }

  /** How many of `ls` have a clone id in `[lo, hi)`. */
  function CountRange(ls: seq<Layer>, lo: nat, hi: nat): nat {
    if |ls| == 0 then 0 else (if lo <= ls[0].cloneid < hi then 1 else 0) + CountRange(ls[1..], lo, hi)
  }

  /** The layer objects of `ls`, in order. */
  function Keys(ls: seq<Layer>): (k: seq<nat>)
    ensures |k| == |ls|
  {
    if |ls| == 0 then [] else [ls[0].key] + Keys(ls[1..])
  }

  /** `s` without its element `i`: the array after the layers above `i` shift left. */
  function Remove<T>(s: seq<T>, i: int): (r: seq<T>)
    requires 0 <= i < |s|
    ensures |r| == |s| - 1
  {
    s[..i] + s[i + 1..]
  }

  /** `s` with `x` placed at `i`: the array after the layers from `i` on shift right. */
  function Insert<T>(s: seq<T>, i: int, x: T): (r: seq<T>)
    requires 0 <= i <= |s|
    ensures |r| == |s| + 1
  {
    s[..i] + [x] + s[i..]
  }

  /** Every clone id of `ls` is at most `MAX_LAYERS/2`. */
  predicate SmallIds(ls: seq<Layer>) {
    forall j :: 0 <= j < |ls| ==> ls[j].cloneid <= MaxLayers / 2
  }

  /**
   * The bookkeeping agrees with the layers: `numclones` is the number of clones, an id is
   * available exactly when no layer carries it, no id is carried by a single layer, and every
   * id is at most `MAX_LAYERS/2`.
   */
  predicate ClonesOk(ls: seq<Layer>, numclones: int, avail: seq<bool>) {
    && |avail| == MaxLayers
    && numclones == |ls| - CountId(ls, 0)
    && SmallIds(ls)
    && (forall id :: 1 <= id < MaxLayers ==> (avail[id] <==> CountId(ls, id) == 0))
    && (forall id :: 1 <= id < MaxLayers ==> CountId(ls, id) != 1)
  }

  // ---------------------------------------------------------------------------
  // Counting

  lemma {:induction false} CountAppend(a: seq<Layer>, b: seq<Layer>, id: nat)
    ensures CountId(a + b, id) == CountId(a, id) + CountId(b, id)
    ensures CountRange(a + b, 1, MaxLayers) == CountRange(a, 1, MaxLayers) + CountRange(b, 1, MaxLayers)
    ensures Keys(a + b) == Keys(a) + Keys(b)
  {
    if |a| == 0 {
      assert a + b == b;
    } else {
      assert (a + b)[1..] == a[1..] + b;
      CountAppend(a[1..], b, id);
    }
  }

  /** Removing layer `i` uncounts it. */
  lemma CountRemove(ls: seq<Layer>, i: int, id: nat)
    requires 0 <= i < |ls|
    ensures CountId(Remove(ls, i), id) == CountId(ls, id) - (if ls[i].cloneid == id then 1 else 0)
    ensures Keys(Remove(ls, i)) == Remove(Keys(ls), i)
  {
    assert ls == ls[..i] + ([ls[i]] + ls[i + 1..]);
    CountAppend(ls[..i], [ls[i]] + ls[i + 1..], id);
    CountAppend([ls[i]], ls[i + 1..], id);
    CountAppend(ls[..i], ls[i + 1..], id);
    assert Keys(ls)[..i] == Keys(ls[..i]) && Keys(ls)[i + 1..] == Keys(ls[i + 1..]);
  }

  /** Inserting a layer counts it. */
  lemma CountInsert(ls: seq<Layer>, i: int, x: Layer, id: nat)
    requires 0 <= i <= |ls|
    ensures CountId(Insert(ls, i, x), id) == CountId(ls, id) + (if x.cloneid == id then 1 else 0)
  {
    assert ls == ls[..i] + ls[i..];
    CountAppend(ls[..i], ls[i..], id);
    CountAppend(ls[..i], [x] + ls[i..], id);
    CountAppend([x], ls[i..], id);
    assert Insert(ls, i, x) == ls[..i] + ([x] + ls[i..]);
  }

  /** Changing layer `j` to `y` uncounts the old one and counts the new one. */
  lemma CountUpdate(ls: seq<Layer>, j: int, y: Layer, id: nat)
    requires 0 <= j < |ls|
    ensures CountId(ls[j := y], id) ==
      CountId(ls, id) - (if ls[j].cloneid == id then 1 else 0) + (if y.cloneid == id then 1 else 0)
  {
    CountRemove(ls, j, id);
    CountInsert(Remove(ls, j), j, y, id);
    assert ls[j := y] == Insert(Remove(ls, j), j, y);
  }

  /** The layer at `j` is counted under its own id. */
  lemma {:induction false} CountHas(ls: seq<Layer>, j: int)
    requires 0 <= j < |ls|
    ensures CountId(ls, ls[j].cloneid) >= 1
  {
    if j > 0 {
      CountHas(ls[1..], j - 1);
    }
  }

  /** Counting the ids `lo` to `hi - 1` one at a time. */
  lemma {:induction false} CountRangeSplit(ls: seq<Layer>, lo: nat, hi: nat)
    requires lo < hi
    ensures CountRange(ls, lo, hi) == CountId(ls, lo) + CountRange(ls, lo + 1, hi)
  {
    if |ls| > 0 {
      CountRangeSplit(ls[1..], lo, hi);
    }
  }

  /** Clones with ids from 1 on and non-clones are different layers. */
  lemma {:induction false} CountRangeBound(ls: seq<Layer>, lo: nat, hi: nat)
    requires lo >= 1
    ensures CountRange(ls, lo, hi) + CountId(ls, 0) <= |ls|
  {
    if |ls| > 0 {
      CountRangeBound(ls[1..], lo, hi);
    }
  }

  /** If every id from `lo` to `hi - 1` is taken, each by at least two layers, that is at least `2 * (hi - lo)` layers. */
  lemma {:induction false} TakenBound(ls: seq<Layer>, avail: seq<bool>, lo: nat, hi: nat)
    requires |avail| == MaxLayers && 1 <= lo <= hi <= MaxLayers
    requires forall id :: 1 <= id < MaxLayers ==> (avail[id] <==> CountId(ls, id) == 0)
    requires forall id :: 1 <= id < MaxLayers ==> CountId(ls, id) != 1
    ensures (forall id :: lo <= id < hi ==> !avail[id]) ==> CountRange(ls, lo, hi) >= 2 * (hi - lo)
    decreases hi - lo
  {
    if lo < hi {
      CountRangeSplit(ls, lo, hi);
      TakenBound(ls, avail, lo + 1, hi);
    }
  }

  // ---------------------------------------------------------------------------
  // GetUniqueCloneID

  /** An id handed out, and `cloneavail` afterwards. */
  datatype Taken = Taken(id: nat, avail: seq<bool>)

  /** The `for` loop of `GetUniqueCloneID` from index `i` on. */
  function FindCloneId(avail: seq<bool>, i: nat): (t: Taken)
    requires |avail| == MaxLayers && 1 <= i <= MaxLayers
    ensures (exists j :: i <= j < MaxLayers && avail[j]) ==>
      && i <= t.id < MaxLayers && avail[t.id]
      && (forall j :: i <= j < t.id ==> !avail[j])
      && t.avail == avail[t.id := false]
    ensures (forall j :: i <= j < MaxLayers ==> !avail[j]) ==> t == Taken(1, avail)
    decreases MaxLayers - i
  {
    if i == MaxLayers then Taken(1, avail)
    else if avail[i] then Taken(i, avail[i := false])
    else FindCloneId(avail, i + 1)
  }

  /** `GetUniqueCloneID`: the first available id above 0, now taken; 1 (after a warning) if there is none. */
  function GetUniqueCloneId(avail: seq<bool>): (t: Taken)
    requires |avail| == MaxLayers
    ensures 1 <= t.id < MaxLayers && |t.avail| == MaxLayers && !t.avail[t.id]
    ensures forall j :: 0 <= j < MaxLayers && j != t.id ==> t.avail[j] == avail[j]
    ensures avail[t.id] <==> exists j :: 1 <= j < MaxLayers && avail[j]
  {
    FindCloneId(avail, 1)
  }

  /**
   * When a non-clone among fewer than `MAX_LAYERS` layers is cloned, a free id exists (the
   * "Bug in GetUniqueCloneID" branch is never taken) and it is at most `MAX_LAYERS/2`, so it
   * indexes `cloneseen[MAX_LAYERS/2 + 1]` of `DeleteOtherLayers`.
   */
  lemma CloneIdFree(ls: seq<Layer>, numclones: int, avail: seq<bool>, c: int)
    requires ClonesOk(ls, numclones, avail) && |ls| < MaxLayers && 0 <= c < |ls| && ls[c].cloneid == 0
    ensures var t := GetUniqueCloneId(avail);
      && 1 <= t.id <= MaxLayers / 2 && avail[t.id] && CountId(ls, t.id) == 0
      && t.avail == avail[t.id := false]
  {
    CountHas(ls, c);
    CountRangeBound(ls, 1, MaxLayers);
    TakenBound(ls, avail, 1, MaxLayers);
    var t := GetUniqueCloneId(avail);
    TakenBound(ls, avail, 1, t.id);
    CountRangeBound(ls, 1, t.id);
  }

  // ---------------------------------------------------------------------------
  // Layer::~Layer

  /** Every layer of `ls` with clone id `x` made a non-clone. */
  function Unclone(ls: seq<Layer>, x: nat): (r: seq<Layer>)
    ensures |r| == |ls|
  {
    if |ls| == 0 then []
    else [if ls[0].cloneid == x then ls[0].(cloneid := 0) else ls[0]] + Unclone(ls[1..], x)
  }

  /** Layer `j` after `Unclone`: a clone `x` is made a non-clone, any other layer is unchanged. */
  lemma {:induction false} UncloneAt(ls: seq<Layer>, x: nat, j: int)
    requires 0 <= j < |ls|
    ensures Unclone(ls, x)[j] == if ls[j].cloneid == x then ls[j].(cloneid := 0) else ls[j]
  {
    if j > 0 {
      UncloneAt(ls[1..], x, j - 1);
    }
  }

  /** The loop resetting the other clones of the group: every layer but `i` with id `x` becomes a non-clone. */
  function ResetClones(ls: seq<Layer>, i: int, x: nat): (r: seq<Layer>)
    requires 0 <= i < |ls|
    ensures |r| == |ls|
  {
    Unclone(ls[..i], x) + [ls[i]] + Unclone(ls[i + 1..], x)
  }

  /** The layers and the clone bookkeeping after a destructor. */
  datatype Kept = Kept(layers: seq<Layer>, numclones: int, avail: seq<bool>)

  /**
   * `Layer::~Layer` for `ls[i]`, run while it is still in the array: a clone in a group of
   * more than two is just uncounted; the last but one frees the id and turns its partner
   * back into a non-clone; a non-clone changes nothing here.
   */
  function Destroy(ls: seq<Layer>, i: int, numclones: int, avail: seq<bool>): (k: Kept)
    requires 0 <= i < |ls| && |avail| == MaxLayers && ls[i].cloneid < MaxLayers
    ensures |k.layers| == |ls| && |k.avail| == MaxLayers
  {
    var x := ls[i].cloneid;
    if x == 0 then Kept(ls, numclones, avail)
    else if CountId(ls, x) > 2 then Kept(ls, numclones - 1, avail)
    else Kept(ResetClones(ls, i, x), numclones - 2, avail[x := true])
  }

  /** Making the clones `x` non-clones moves their count to 0 and keeps the layer objects. */
  lemma {:induction false} CountUnclone(ls: seq<Layer>, x: nat, id: nat)
    requires x > 0
    ensures CountId(Unclone(ls, x), id) ==
      if id == x then 0 else if id == 0 then CountId(ls, 0) + CountId(ls, x) else CountId(ls, id)
    ensures Keys(Unclone(ls, x)) == Keys(ls)
    ensures forall j :: 0 <= j < |ls| ==> Unclone(ls, x)[j].cloneid <= ls[j].cloneid
  {
    if |ls| > 0 {
      CountUnclone(ls[1..], x, id);
    }
  }

  lemma {:induction false} UncloneAppend(a: seq<Layer>, b: seq<Layer>, x: nat)
    ensures Unclone(a + b, x) == Unclone(a, x) + Unclone(b, x)
  {
    if |a| == 0 {
      assert a + b == b;
    } else {
      assert (a + b)[1..] == a[1..] + b;
      UncloneAppend(a[1..], b, x);
    }
  }

  /** After the reset, removing layer `i` leaves every other layer of its group a non-clone. */
  lemma RemoveReset(ls: seq<Layer>, i: int, x: nat)
    requires 0 <= i < |ls|
    ensures Remove(ResetClones(ls, i, x), i) == Unclone(Remove(ls, i), x)
  {
    var r := ResetClones(ls, i, x);
    assert r[..i] == Unclone(ls[..i], x) && r[i + 1..] == Unclone(ls[i + 1..], x);
    UncloneAppend(ls[..i], ls[i + 1..], x);
  }

  /**
   * Deleting layer `i` (destructor, then the shift left) keeps the bookkeeping right:
   * `numclones` still counts the clones, and `cloneavail` the unused ids; the layer objects
   * left are the others, in order.
   */
  lemma DestroyRemove(ls: seq<Layer>, i: int, numclones: int, avail: seq<bool>)
    requires ClonesOk(ls, numclones, avail) && 0 <= i < |ls|
    ensures ls[i].cloneid < MaxLayers
    ensures var k := Destroy(ls, i, numclones, avail);
      && ClonesOk(Remove(k.layers, i), k.numclones, k.avail)
      && Keys(Remove(k.layers, i)) == Keys(Remove(ls, i))
  {
    var x := ls[i].cloneid;
    var k := Destroy(ls, i, numclones, avail);
    var r := Remove(k.layers, i);
    CountRemove(ls, i, 0);
    if x == 0 {
      forall id | 1 <= id < MaxLayers
        ensures CountId(r, id) == CountId(ls, id)
      {
        CountRemove(ls, i, id);
      }
    } else if CountId(ls, x) > 2 {
      forall id | 1 <= id < MaxLayers
        ensures CountId(r, id) == CountId(ls, id) - (if id == x then 1 else 0)
      {
        CountRemove(ls, i, id);
      }
    } else {
      CountHas(ls, i);
      CountRemove(ls, i, x);
      RemoveReset(ls, i, x);
      CountUnclone(Remove(ls, i), x, 0);
      forall id | 1 <= id < MaxLayers
        ensures CountId(r, id) == if id == x then 0 else CountId(ls, id)
      {
        CountUnclone(Remove(ls, i), x, id);
        CountRemove(ls, i, id);
      }
    }
  }
}
