/** Which (layer, frame) cels get a slot of their own in the atlas, and the
    `atlas_layer_indexes` table that addresses them (src/assets.rs:92-114). */
module Slots {
  import opened Wrappers
  import opened Document
  import Grid

  /** The key of `atlas_layer_indexes`: `(layer, frame)`. */
  datatype CelKey = CelKey(layer: nat, frame: nat)

  predicate ValidKey(file: AseFile, key: CelKey)
  {
    key.layer < file.NumLayers() && key.frame < file.NumFrames()
  }

  /** Position of a key in the layer-major enumeration `i = layer * num_frames + frame`. */
  function Rank(numFrames: nat, key: CelKey): nat
  {
    key.layer * numFrames + key.frame
  }

  /** The cel enumerated as `i`: layer `i / num_frames`, frame `i % num_frames`. */
  function KeyAt(numFrames: nat, i: nat): (key: CelKey)
    requires numFrames > 0
    ensures key.frame < numFrames
    ensures Rank(numFrames, key) == i
  {
    CelKey(i / numFrames, i % numFrames)
  }

  lemma KeyAtRank(numFrames: nat, key: CelKey)
    requires key.frame < numFrames
    ensures KeyAt(numFrames, Rank(numFrames, key)) == key
  {
    Grid.DivModUnique(Rank(numFrames, key), numFrames, key.layer, key.frame);
  }

  /** An enumeration index below `num_frames * num_layers` names a valid cel. */
  lemma KeyAtValid(file: AseFile, i: nat)
    requires i < file.NumFrames() * file.NumLayers()
    ensures file.NumFrames() > 0
    ensures ValidKey(file, KeyAt(file.NumFrames(), i))
  {
    var f, l := file.NumFrames(), file.NumLayers();
    assert f > 0;
    var q := i / f;
    if q >= l {
      Grid.MulLeftMono(l, q, f);
      assert false;
    }
  }

  /** The filter at src/assets.rs:93-96: a group layer's cel is always kept,
      any other cel only when it holds pixels. */
  predicate Keeps(file: AseFile, key: CelKey)
    requires WellFormed(file) && ValidKey(file, key)
  {
    file.layers[key.layer].layerType == Group || !CelIsEmpty(file, key.frame, key.layer)
  }

  /** Keys listed in strictly increasing enumeration order. */
  predicate StrictlyRanked(numFrames: nat, keys: seq<CelKey>)
  {
    forall i, j :: 0 <= i < j < |keys| ==> Rank(numFrames, keys[i]) < Rank(numFrames, keys[j])
  }

  /** `non_empty_cels` restricted to the enumeration indices `0..n`. */
  function KeptCels(file: AseFile, n: nat): (kept: seq<CelKey>)
    requires WellFormed(file) && n <= file.NumFrames() * file.NumLayers()
    ensures |kept| <= n
    ensures forall p :: 0 <= p < |kept| ==>
      ValidKey(file, kept[p]) && Keeps(file, kept[p]) && Rank(file.NumFrames(), kept[p]) < n
    ensures StrictlyRanked(file.NumFrames(), kept)
  {
    if n == 0 then []
    else
      var prev := KeptCels(file, n - 1);
      KeyAtValid(file, n - 1);
      var key := KeyAt(file.NumFrames(), n - 1);
      if Keeps(file, key) then prev + [key] else prev
  }

  /** `non_empty_cels`: every kept cel, layer-major. */
  function AllKeptCels(file: AseFile): seq<CelKey>
    requires WellFormed(file)
  {
    KeptCels(file, file.NumFrames() * file.NumLayers())
  }

  /** A cel is listed exactly when it is valid and passes the filter. */
  lemma {:induction false} KeptCelsComplete(file: AseFile, n: nat, key: CelKey)
    requires WellFormed(file) && n <= file.NumFrames() * file.NumLayers()
    requires ValidKey(file, key) && Rank(file.NumFrames(), key) < n
    ensures key in KeptCels(file, n) <==> Keeps(file, key)
  {
    var F := file.NumFrames();
    KeyAtValid(file, n - 1);
    KeyAtRank(F, key);
    if Rank(F, key) < n - 1 {
      KeptCelsComplete(file, n - 1, key);
      var last := KeyAt(F, n - 1);
      assert key != last;
    } else {
      assert key == KeyAt(F, n - 1);
      var prev := KeptCels(file, n - 1);
      assert key !in prev;
    }
  }

  /** `atlas_layer_indexes`: the kept cel at position `i` goes to slot
      `num_frames + i` (a later duplicate key would overwrite an earlier one,
      as `HashMap::from_iter` does). */
  function LayerIndexes(kept: seq<CelKey>, numFrames: nat): (m: map<CelKey, nat>)
    ensures forall key :: key in m <==> key in kept
  {
    if kept == [] then map[]
    else LayerIndexes(kept[..|kept| - 1], numFrames)[kept[|kept| - 1] := |kept| - 1 + numFrames]
  }

  predicate Distinct(keys: seq<CelKey>)
  {
    forall i, j :: 0 <= i < j < |keys| ==> keys[i] != keys[j]
  }

  lemma {:induction false} SlotOfKept(kept: seq<CelKey>, numFrames: nat, p: nat)
    requires Distinct(kept) && p < |kept|
    ensures LayerIndexes(kept, numFrames)[kept[p]] == numFrames + p
  {
    var n := |kept|;
    if p < n - 1 {
      SlotOfKept(kept[..n - 1], numFrames, p);
    }
  }

  /** Two keys of the table with the same slot are the same key. */
  lemma SlotInjective(kept: seq<CelKey>, numFrames: nat, k1: CelKey, k2: CelKey)
    requires Distinct(kept)
    requires k1 in LayerIndexes(kept, numFrames) && k2 in LayerIndexes(kept, numFrames)
    requires LayerIndexes(kept, numFrames)[k1] == LayerIndexes(kept, numFrames)[k2]
    ensures k1 == k2
  {
    var p1 :| 0 <= p1 < |kept| && kept[p1] == k1;
    var p2 :| 0 <= p2 < |kept| && kept[p2] == k2;
    SlotOfKept(kept, numFrames, p1);
    SlotOfKept(kept, numFrames, p2);
  }

  /** A slot is taken by some key exactly when it lies in
      `num_frames..num_frames + |kept|`. */
  lemma SlotTaken(kept: seq<CelKey>, numFrames: nat, v: int)
    requires Distinct(kept)
    ensures v in LayerIndexes(kept, numFrames).Values <==> numFrames <= v < numFrames + |kept|
  {
    var m := LayerIndexes(kept, numFrames);
    if v in m.Values {
      var k :| k in m && m[k] == v;
      var p :| 0 <= p < |kept| && kept[p] == k;
      SlotOfKept(kept, numFrames, p);
    }
    if numFrames <= v < numFrames + |kept| {
      var p := v - numFrames;
      SlotOfKept(kept, numFrames, p);
      assert m[kept[p]] == v;
    }
  }

  /** The table sends each key to a slot of its own, the slots taken are
      exactly `num_frames..num_frames + |kept|`, and none of them is a
      whole-frame slot `0..num_frames`. */
  lemma SlotBijection(kept: seq<CelKey>, numFrames: nat)
    requires Distinct(kept)
    ensures var m := LayerIndexes(kept, numFrames);
      && (forall p :: 0 <= p < |kept| ==> m[kept[p]] == numFrames + p)
      && (forall k1, k2 :: k1 in m && k2 in m && m[k1] == m[k2] ==> k1 == k2)
      && (forall v :: v in m.Values <==> numFrames <= v < numFrames + |kept|)
  {
    var m := LayerIndexes(kept, numFrames);
    forall p | 0 <= p < |kept| ensures m[kept[p]] == numFrames + p {
      SlotOfKept(kept, numFrames, p);
    }
    forall k1, k2 | k1 in m && k2 in m && m[k1] == m[k2] ensures k1 == k2 {
      SlotInjective(kept, numFrames, k1, k2);
    }
    forall v ensures v in m.Values <==> numFrames <= v < numFrames + |kept| {
      SlotTaken(kept, numFrames, v);
    }
  }

  lemma RankedIsDistinct(numFrames: nat, keys: seq<CelKey>)
    requires StrictlyRanked(numFrames, keys)
    ensures Distinct(keys)
  {
  }

  /** The slot table of a file (src/assets.rs:109-114). */
  function AtlasLayerIndexes(file: AseFile): map<CelKey, nat>
    requires WellFormed(file)
  {
    LayerIndexes(AllKeptCels(file), file.NumFrames())
  }

  /** The keys of a file's table are exactly its valid cels that the
      loader keeps. */
  lemma AtlasKeysAreKeptCels(file: AseFile, key: CelKey)
    requires WellFormed(file)
    ensures key in AtlasLayerIndexes(file) <==> ValidKey(file, key) && Keeps(file, key)
  {
    var F := file.NumFrames();
    if ValidKey(file, key) {
      assert Rank(F, key) < F * file.NumLayers() by {
        Grid.MulLeftMono(key.layer + 1, file.NumLayers(), F);
      }
      KeptCelsComplete(file, F * file.NumLayers(), key);
    }
  }

  /** The table of a file: its keys are exactly the kept cels, each kept cel
      `AllKeptCels(file)[p]` has slot `num_frames + p`, and the slots are the
      contiguous range `num_frames..num_frames + K` without repetition. */
  lemma AtlasLayerIndexesBijection(file: AseFile)
    requires WellFormed(file)
    ensures var m, kept, F := AtlasLayerIndexes(file), AllKeptCels(file), file.NumFrames();
      && (forall key :: key in m <==> ValidKey(file, key) && Keeps(file, key))
      && (forall p :: 0 <= p < |kept| ==> m[kept[p]] == F + p)
      && (forall k1, k2 :: k1 in m && k2 in m && m[k1] == m[k2] ==> k1 == k2)
      && (forall v :: v in m.Values <==> F <= v < F + |kept|)
  {
    var kept, F := AllKeptCels(file), file.NumFrames();
    RankedIsDistinct(F, kept);
    SlotBijection(kept, F);
    forall key ensures key in AtlasLayerIndexes(file) <==> ValidKey(file, key) && Keeps(file, key) {
      AtlasKeysAreKeptCels(file, key);
    }
  }

  /** Slots follow the layer-major enumeration: a cel enumerated earlier
      has a smaller slot. */
  lemma SlotOrderFollowsRank(file: AseFile, k1: CelKey, k2: CelKey)
    requires WellFormed(file)
    requires k1 in AtlasLayerIndexes(file) && k2 in AtlasLayerIndexes(file)
    requires Rank(file.NumFrames(), k1) < Rank(file.NumFrames(), k2)
    ensures AtlasLayerIndexes(file)[k1] < AtlasLayerIndexes(file)[k2]
  {
    var kept, F := AllKeptCels(file), file.NumFrames();
    AtlasLayerIndexesBijection(file);
    var p1 :| 0 <= p1 < |kept| && kept[p1] == k1;
    var p2 :| 0 <= p2 < |kept| && kept[p2] == k2;
    if p2 <= p1 {
      assert false;
    }
  }

  /** In the same frame, a layer with a smaller id is enumerated earlier. */
  lemma EarlierLayerEarlierRank(numFrames: nat, a: nat, key: CelKey)
    requires a < key.layer && key.frame < numFrames
    ensures Rank(numFrames, CelKey(a, key.frame)) < Rank(numFrames, key)
  {
    Grid.MulLeftMono(a + 1, key.layer, numFrames);
  }

  /** In a strictly ranked list, a key of smaller rank is listed earlier. */
  lemma RankOrderIsListOrder(numFrames: nat, keys: seq<CelKey>, p: nat, q: nat)
    requires StrictlyRanked(numFrames, keys) && p < |keys| && q < |keys|
    requires Rank(numFrames, keys[p]) < Rank(numFrames, keys[q])
    ensures p < q
  {
  }

  /** In a strictly ranked list, a listed key of smaller rank than the
      `q`-th key has a slot before `num_frames + q`. */
  lemma {:induction false} EarlierRankEarlierSlot(kept: seq<CelKey>, numFrames: nat, q: nat, k: CelKey)
    requires StrictlyRanked(numFrames, kept) && q < |kept|
    requires k in LayerIndexes(kept, numFrames)
    requires Rank(numFrames, k) < Rank(numFrames, kept[q])
    ensures LayerIndexes(kept, numFrames)[k] < numFrames + q
  {
    RankedIsDistinct(numFrames, kept);
    var p :| 0 <= p < |kept| && kept[p] == k;
    SlotOfKept(kept, numFrames, p);
    RankOrderIsListOrder(numFrames, kept, p, q);
  }

  /** The cel of a layer with a smaller id, in the same frame as the
      `q`-th kept cel, has a slot before that cel's slot `num_frames + q`. */
  lemma EarlierLayerEarlierSlot(file: AseFile, q: nat, a: nat)
    requires WellFormed(file) && q < |AllKeptCels(file)|
    requires a < AllKeptCels(file)[q].layer
    requires CelKey(a, AllKeptCels(file)[q].frame) in AtlasLayerIndexes(file)
    ensures AtlasLayerIndexes(file)[CelKey(a, AllKeptCels(file)[q].frame)] < file.NumFrames() + q
  {
    var kept, F := AllKeptCels(file), file.NumFrames();
    var key := kept[q];
    assert ValidKey(file, key);
    EarlierLayerEarlierRank(F, a, key);
    EarlierRankEarlierSlot(kept, F, q, CelKey(a, key.frame));
  }

  /** In a strictly ranked list, keys of adjacent ranks sit side by side. */
  lemma AdjacentRanksAdjacentPositions(numFrames: nat, keys: seq<CelKey>, p: nat, q: nat)
    requires StrictlyRanked(numFrames, keys) && p < |keys| && q < |keys|
    requires Rank(numFrames, keys[q]) == Rank(numFrames, keys[p]) + 1
    ensures q == p + 1
  {
    if q <= p {
      assert false;
    }
    assert Rank(numFrames, keys[p]) < Rank(numFrames, keys[p + 1]);
  }

  /** When a layer's cels for frames `f` and `f + 1` are both kept, their
      slots are adjacent. */
  lemma NextFrameNextSlot(file: AseFile, layer: nat, f: nat)
    requires WellFormed(file)
    requires CelKey(layer, f) in AtlasLayerIndexes(file)
    requires CelKey(layer, f + 1) in AtlasLayerIndexes(file)
    ensures AtlasLayerIndexes(file)[CelKey(layer, f + 1)] == AtlasLayerIndexes(file)[CelKey(layer, f)] + 1
  {
    var kept, F := AllKeptCels(file), file.NumFrames();
    var a, b := CelKey(layer, f), CelKey(layer, f + 1);
    assert a in kept && b in kept;
    var p :| 0 <= p < |kept| && kept[p] == a;
    var q :| 0 <= q < |kept| && kept[q] == b;
    AdjacentRanksAdjacentPositions(F, kept, p, q);
    RankedIsDistinct(F, kept);
    SlotOfKept(kept, F, p);
    SlotOfKept(kept, F, q);
  }

  /** Every cel of `layer` in frames `from..=to` has a slot in `m`. */
  predicate LayerRunKept(m: map<CelKey, nat>, layer: nat, from: nat, to: nat)
  {
    forall f :: from <= f <= to ==> CelKey(layer, f) in m
  }

  /** Adjacent frames of `layer` that both have slots have adjacent slots. */
  ghost predicate AdjacentFramesAdjacentSlots(m: map<CelKey, nat>, layer: nat)
  {
    forall f: nat :: CelKey(layer, f) in m && CelKey(layer, f + 1) in m ==>
      m[CelKey(layer, f + 1)] == m[CelKey(layer, f)] + 1
  }

  lemma {:induction false} RunOfAdjacentSlots(m: map<CelKey, nat>, layer: nat, from: nat, to: nat)
    requires from <= to && LayerRunKept(m, layer, from, to)
    requires AdjacentFramesAdjacentSlots(m, layer)
    ensures CelKey(layer, from) in m && CelKey(layer, to) in m
    ensures m[CelKey(layer, to)] == m[CelKey(layer, from)] + (to - from)
  {
    if from < to {
      RunOfAdjacentSlots(m, layer, from, to - 1);
      assert CelKey(layer, to - 1) in m && CelKey(layer, to) in m;
    }
  }

  lemma AdjacentSlotsOfFile(file: AseFile, layer: nat)
    requires WellFormed(file)
    ensures AdjacentFramesAdjacentSlots(AtlasLayerIndexes(file), layer)
  {
    forall f: nat | CelKey(layer, f) in AtlasLayerIndexes(file) && CelKey(layer, f + 1) in AtlasLayerIndexes(file)
      ensures AtlasLayerIndexes(file)[CelKey(layer, f + 1)] == AtlasLayerIndexes(file)[CelKey(layer, f)] + 1
    {
      NextFrameNextSlot(file, layer, f);
    }
  }

  /** When every cel of `layer` in frames `from..=to` is kept, the slots of
      those cels are consecutive: `slot(layer, to) == slot(layer, from) + (to - from)`. */
  lemma LayerRunContiguous(file: AseFile, layer: nat, from: nat, to: nat)
    requires WellFormed(file) && from <= to
    requires LayerRunKept(AtlasLayerIndexes(file), layer, from, to)
    ensures CelKey(layer, from) in AtlasLayerIndexes(file) && CelKey(layer, to) in AtlasLayerIndexes(file)
    ensures AtlasLayerIndexes(file)[CelKey(layer, to)] == AtlasLayerIndexes(file)[CelKey(layer, from)] + (to - from)
  {
    AdjacentSlotsOfFile(file, layer);
    RunOfAdjacentSlots(AtlasLayerIndexes(file), layer, from, to);
  }
}
