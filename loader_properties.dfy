/** What the loader's packing leaves in the atlas (src/assets.rs:116-148):
    which images each grid cell holds, in which order, and when loading
    succeeds. */
module LoaderProperties {
  import opened Wrappers
  import opened Document
  import opened Slots
  import opened Asset
  import Grid
  import opened Loader

  /** No two keys share a slot. */
  predicate Injective(m: map<CelKey, nat>)
  {
    forall k1, k2 :: k1 in m && k2 in m && m[k1] == m[k2] ==> k1 == k2
  }

  /** The slots of the cels, in `frame`, of the layers on the chain that
      starts at `parent`. */
  function AncestorSlots(pk: Packing, frame: nat, parent: Option<nat>): set<nat>
    requires Shaped(pk) && (parent.Some? ==> parent.value < pk.file.NumLayers())
  {
    set a | a in Chain(pk.file.layers, parent) && CelKey(a, frame) in pk.index :: pk.index[CelKey(a, frame)]
  }

  /** The parent-chain walk succeeds exactly when every ancestor's cel in
      `frame` has a slot. */
  lemma {:induction false} PaintAncestorsOk(pk: Packing, cells: Cells, frame: nat, parent: Option<nat>, img: Image)
    requires Shaped(pk) && |cells| == pk.layout.Capacity()
    requires parent.Some? ==> parent.value < pk.file.NumLayers()
    ensures PaintAncestors(pk, cells, frame, parent, img).Ok?
        <==> forall a :: a in Chain(pk.file.layers, parent) ==> CelKey(a, frame) in pk.index
    decreases if parent.Some? then parent.value + 1 else 0
  {
    match parent
    case None =>
    case Some(p) =>
      var key := CelKey(p, frame);
      if key in pk.index {
        PaintAncestorsOk(pk, Overlay(cells, pk.index[key], img), frame, pk.file.layers[p].parent, img);
      }
  }

  /** On success, the walk appends `img` once to the slot of every
      ancestor's cel and leaves every other slot as it was. */
  lemma {:induction false} PaintAncestorsEffect(pk: Packing, cells: Cells, frame: nat, parent: Option<nat>, img: Image)
    requires Shaped(pk) && CellsHoldImages(pk) && Injective(pk.index) && |cells| == pk.layout.Capacity()
    requires parent.Some? ==> parent.value < pk.file.NumLayers()
    requires PaintAncestors(pk, cells, frame, parent, img).Ok?
    ensures var c := PaintAncestors(pk, cells, frame, parent, img).value;
      forall s :: 0 <= s < |cells| ==>
        c[s] == cells[s] + (if s in AncestorSlots(pk, frame, parent) then [img] else [])
    decreases if parent.Some? then parent.value + 1 else 0
  {
    match parent
    case None =>
    case Some(p) =>
      var layers := pk.file.layers;
      var key := CelKey(p, frame);
      var t := pk.index[key];
      var next := layers[p].parent;
      var overlaid := Overlay(cells, t, img);
      PaintAncestorsEffect(pk, overlaid, frame, next, img);
      forall s | 0 <= s < |cells|
        ensures s in AncestorSlots(pk, frame, parent) <==> s == t || s in AncestorSlots(pk, frame, next)
      {
        assert Chain(layers, parent) == [p] + Chain(layers, next);
        if s in AncestorSlots(pk, frame, next) {
          var a :| a in Chain(layers, next) && CelKey(a, frame) in pk.index && pk.index[CelKey(a, frame)] == s;
          assert a in Chain(layers, parent);
        }
      }
      forall a | a in Chain(layers, next) && CelKey(a, frame) in pk.index
        ensures pk.index[CelKey(a, frame)] != t
      {
        var k :| 0 <= k < |Chain(layers, next)| && Chain(layers, next)[k] == a;
        assert a < p;
      }
  }

  /** The parent of the `q`-th kept cel's layer: where the walk for that
      cel starts. */
  function ParentOf(pk: Packing, q: nat): (parent: Option<nat>)
    requires Shaped(pk) && q < |pk.kept|
    ensures parent.Some? ==> parent.value < pk.file.NumLayers()
  {
    assert ValidKey(pk.file, pk.kept[q]);
    pk.file.layers[pk.kept[q].layer].parent
  }

  /** Is the `q`-th kept cel's image overlaid onto slot `s` (the slot of the
      cel of one of its layer's ancestors in the same frame)? */
  predicate OverlaidOnto(pk: Packing, q: nat, s: nat)
    requires Shaped(pk) && q < |pk.kept|
  {
    HasPixels(pk, q) && s in AncestorSlots(pk, pk.kept[q].frame, ParentOf(pk, q))
  }

  /** The images of the kept cels `0..n` overlaid onto slot `s`, in the
      order the second loop draws them. */
  function Overlays(pk: Packing, s: nat, n: nat): seq<Image>
    requires Shaped(pk) && n <= |pk.kept|
  {
    if n == 0 then []
    else Overlays(pk, s, n - 1) + (if OverlaidOnto(pk, n - 1, s) then [CelImageOf(pk, n - 1)] else [])
  }

  /** The image copied into slot `s` by the kept cels `0..n`: the cel's own
      image, when `s` is a kept cel's own slot and that cel holds pixels. */
  function OwnImage(pk: Packing, s: nat, n: nat): seq<Image>
    requires Shaped(pk) && n <= |pk.kept|
  {
    if pk.NumFrames() <= s < pk.NumFrames() + n && HasPixels(pk, s - pk.NumFrames())
    then [CelImageOf(pk, s - pk.NumFrames())]
    else []
  }

  /** Every ancestor slot is a kept cel's slot, never a whole-frame slot. */
  lemma AncestorSlotsAreCelSlots(pk: Packing, frame: nat, parent: Option<nat>)
    requires Shaped(pk) && (parent.Some? ==> parent.value < pk.file.NumLayers())
    ensures forall s :: s in AncestorSlots(pk, frame, parent) ==> pk.NumFrames() <= s < pk.Total()
  {
  }

  /** One step of the second loop: a cel with pixels replaces its own slot
      with its image and adds its image on top of its ancestors' slots; an
      empty cel changes nothing. */
  lemma PaintCelEffect(pk: Packing, cells: Cells, i: nat)
    requires Shaped(pk) && CellsHoldImages(pk) && Injective(pk.index) && |cells| == pk.layout.Capacity() && i < |pk.kept|
    requires PaintCel(pk, cells, i).Ok?
    ensures var c, img := PaintCel(pk, cells, i).value, CelImageOf(pk, i);
      forall s :: 0 <= s < |cells| ==>
        c[s] == if !HasPixels(pk, i) then cells[s]
                else (if s == pk.NumFrames() + i then [img] else cells[s])
                     + (if OverlaidOnto(pk, i, s) then [img] else [])
  {
    if HasPixels(pk, i) {
      var img := CelImageOf(pk, i);
      var copied := CopyInto(pk, cells, pk.NumFrames() + i, img).value;
      PaintAncestorsEffect(pk, copied, pk.kept[i].frame, ParentOf(pk, i), img);
    }
  }

  /** The ancestor layer whose cel's slot an overlay lands on: a layer with
      a smaller id than the overlaid cel's own layer. */
  lemma OverlayAncestor(pk: Packing, q: nat, s: nat) returns (a: nat)
    requires Shaped(pk) && q < |pk.kept|
    requires OverlaidOnto(pk, q, s)
    ensures a < pk.kept[q].layer
    ensures CelKey(a, pk.kept[q].frame) in pk.index && pk.index[CelKey(a, pk.kept[q].frame)] == s
  {
    var key := pk.kept[q];
    var chain := Chain(pk.file.layers, ParentOf(pk, q));
    a :| a in chain && CelKey(a, key.frame) in pk.index && pk.index[CelKey(a, key.frame)] == s;
  }

  /** A cel is overlaid only onto slots before its own: an ancestor layer has
      a smaller id, so its cel in the same frame comes earlier in the
      layer-major enumeration. */
  lemma OverlaidOntoEarlierSlot(pk: Packing, q: nat, s: nat)
    requires ValidPacking(pk) && q < |pk.kept|
    requires OverlaidOnto(pk, q, s)
    ensures s < pk.NumFrames() + q
  {
    var a := OverlayAncestor(pk, q, s);
    EarlierLayerEarlierSlot(pk.file, q, a);
  }

  /** What the second loop's correctness rests on: slots are not shared,
      and every cel is overlaid only onto slots before its own. */
  ghost predicate PaintOrder(pk: Packing)
  {
    && Shaped(pk)
    && Injective(pk.index)
    && (forall q, s: nat :: 0 <= q < |pk.kept| && OverlaidOnto(pk, q, s) ==> s < pk.NumFrames() + q)
  }

  lemma PaintOrderOfValid(pk: Packing)
    requires ValidPacking(pk)
    ensures PaintOrder(pk)
  {
    AtlasLayerIndexesBijection(pk.file);
    forall q, s: nat | 0 <= q < |pk.kept| && OverlaidOnto(pk, q, s) ensures s < pk.NumFrames() + q {
      OverlaidOntoEarlierSlot(pk, q, s);
    }
  }

  /** Nothing is overlaid onto slot `s` by the cels up to the one whose own
      slot is `s`. */
  lemma {:induction false} NoOverlaysBeforeOwnSlot(pk: Packing, s: nat, n: nat)
    requires PaintOrder(pk) && n <= |pk.kept|
    requires pk.NumFrames() + n <= s + 1
    ensures Overlays(pk, s, n) == []
  {
    if n > 0 {
      NoOverlaysBeforeOwnSlot(pk, s, n - 1);
    }
  }

  /** `PaintCelEffect` at a single slot. */
  lemma PaintCelAt(pk: Packing, cells: Cells, i: nat, s: nat)
    requires Shaped(pk) && CellsHoldImages(pk) && Injective(pk.index) && |cells| == pk.layout.Capacity() && i < |pk.kept|
    requires s < |cells| && PaintCel(pk, cells, i).Ok?
    ensures var img := CelImageOf(pk, i);
      PaintCel(pk, cells, i).value[s]
        == if !HasPixels(pk, i) then cells[s]
           else (if s == pk.NumFrames() + i then [img] else cells[s])
                + (if OverlaidOnto(pk, i, s) then [img] else [])
  {
    PaintCelEffect(pk, cells, i);
  }

  /** What cel `i` adds to a cel slot's contents: its own image when the slot
      is its own (nothing was there before), and itself on top when it is
      overlaid onto the slot. */
  lemma CelSlotStep(pk: Packing, i: nat, s: nat)
    requires PaintOrder(pk) && i < |pk.kept| && pk.NumFrames() <= s
    ensures var img, before := CelImageOf(pk, i), OwnImage(pk, s, i) + Overlays(pk, s, i);
      (if !HasPixels(pk, i) then before
       else (if s == pk.NumFrames() + i then [img] else before)
            + (if OverlaidOnto(pk, i, s) then [img] else []))
      == OwnImage(pk, s, i + 1) + Overlays(pk, s, i + 1)
  {
    var img := CelImageOf(pk, i);
    var extra := if OverlaidOnto(pk, i, s) then [img] else [];
    assert Overlays(pk, s, i + 1) == Overlays(pk, s, i) + extra;
    if s == pk.NumFrames() + i && HasPixels(pk, i) {
      NoOverlaysBeforeOwnSlot(pk, s, i);
    } else {
      assert OwnImage(pk, s, i + 1) == OwnImage(pk, s, i);
    }
  }

  /** One step of the second loop, seen from one slot: a frame slot is left
      alone, and a cel slot that held the images of the cels `0..i` holds
      those of the cels `0..i + 1` afterwards. */
  lemma PaintCelOnSlot(pk: Packing, prev: Cells, i: nat, s: nat)
    requires PaintOrder(pk) && CellsHoldImages(pk) && |prev| == pk.layout.Capacity() && i < |pk.kept|
    requires s < |prev| && PaintCel(pk, prev, i).Ok?
    requires s >= pk.NumFrames() ==> prev[s] == OwnImage(pk, s, i) + Overlays(pk, s, i)
    ensures PaintCel(pk, prev, i).value[s]
         == if s < pk.NumFrames() then prev[s] else OwnImage(pk, s, i + 1) + Overlays(pk, s, i + 1)
  {
    PaintCelAt(pk, prev, i, s);
    if s < pk.NumFrames() {
      AncestorSlotsAreCelSlots(pk, pk.kept[i].frame, ParentOf(pk, i));
    } else {
      CelSlotStep(pk, i, s);
    }
  }

  /** After the kept cels `0..n` are painted onto a buffer whose cel slots
      are blank, the whole-frame slots are untouched and each other slot
      holds the image copied into it (if any), then the images of the
      descendant cels overlaid onto it, in enumeration order. An ancestor's
      slot is always painted before its descendants are overlaid onto it,
      so no overlaid image is wiped by a later copy. */
  lemma {:induction false} PaintCelsEffect(pk: Packing, cells: Cells, n: nat)
    requires PaintOrder(pk) && CellsHoldImages(pk) && |cells| == pk.layout.Capacity() && n <= |pk.kept|
    requires forall s :: pk.NumFrames() <= s < |cells| ==> cells[s] == []
    requires PaintCels(pk, cells, n).Ok?
    ensures var c := PaintCels(pk, cells, n).value;
      forall s :: 0 <= s < |cells| ==>
        c[s] == if s < pk.NumFrames() then cells[s] else OwnImage(pk, s, n) + Overlays(pk, s, n)
  {
    if n > 0 {
      var i := n - 1;
      PaintCelsEffect(pk, cells, i);
      var prev := PaintCels(pk, cells, i).value;
      assert PaintCels(pk, cells, n) == PaintCel(pk, prev, i);
      forall s | 0 <= s < |cells|
        ensures PaintCel(pk, prev, i).value[s]
             == if s < pk.NumFrames() then cells[s] else OwnImage(pk, s, n) + Overlays(pk, s, n)
      {
        PaintCelOnSlot(pk, prev, i, s);
      }
    }
  }

  /** The first loop copies frame `s` into slot `s` for every `s < n` and
      leaves the other slots alone. */
  lemma {:induction false} PaintFramesEffect(pk: Packing, cells: Cells, n: nat)
    requires Shaped(pk) && CellsHoldImages(pk) && |cells| == pk.layout.Capacity() && n <= pk.NumFrames()
    requires PaintFrames(pk, cells, n).Ok?
    ensures var c := PaintFrames(pk, cells, n).value;
      forall s :: 0 <= s < |cells| ==> c[s] == if s < n then [FrameImage(s)] else cells[s]
  {
    if n > 0 {
      PaintFramesEffect(pk, cells, n - 1);
    }
  }

  /** The first loop succeeds exactly when every frame fits at its slot. */
  lemma {:induction false} PaintFramesOk(pk: Packing, cells: Cells, n: nat)
    requires Shaped(pk) && |cells| == pk.layout.Capacity() && n <= pk.NumFrames()
    ensures PaintFrames(pk, cells, n).Ok?
        <==> forall s :: 0 <= s < n ==> Grid.CopyFits(pk.layout, s, pk.file.width, pk.file.height)
  {
    if n > 0 {
      PaintFramesOk(pk, cells, n - 1);
    }
  }

  /** What one step of the second loop needs: a cel with pixels fits at its
      own slot and each ancestor's cel in its frame has a slot. */
  predicate CelPaintable(pk: Packing, i: nat)
    requires Shaped(pk) && i < |pk.kept|
  {
    HasPixels(pk, i) ==>
      && Grid.CopyFits(pk.layout, pk.NumFrames() + i, pk.file.width, pk.file.height)
      && forall a :: a in Chain(pk.file.layers, ParentOf(pk, i)) ==> CelKey(a, pk.kept[i].frame) in pk.index
  }

  lemma PaintCelOk(pk: Packing, cells: Cells, i: nat)
    requires Shaped(pk) && |cells| == pk.layout.Capacity() && i < |pk.kept|
    ensures PaintCel(pk, cells, i).Ok? <==> CelPaintable(pk, i)
  {
    if HasPixels(pk, i) {
      var slot := pk.NumFrames() + i;
      if Grid.CopyFits(pk.layout, slot, pk.file.width, pk.file.height) {
        var copied := CopyInto(pk, cells, slot, CelImageOf(pk, i)).value;
        PaintAncestorsOk(pk, copied, pk.kept[i].frame, ParentOf(pk, i), CelImageOf(pk, i));
      }
    }
  }

  /** The second loop over the kept cels `0..n` succeeds exactly when each
      of its steps can. */
  lemma {:induction false} PaintCelsOk(pk: Packing, cells: Cells, n: nat)
    requires Shaped(pk) && |cells| == pk.layout.Capacity() && n <= |pk.kept|
    ensures PaintCels(pk, cells, n).Ok? <==> forall i :: 0 <= i < n ==> CelPaintable(pk, i)
  {
    if n > 0 {
      PaintCelsOk(pk, cells, n - 1);
      if PaintCels(pk, cells, n - 1).Ok? {
        PaintCelOk(pk, PaintCels(pk, cells, n - 1).value, n - 1);
      }
    }
  }

  /** Both loops succeed exactly when every frame fits at its slot and
      every kept cel is paintable. */
  lemma PackCellsOk(pk: Packing)
    requires Shaped(pk)
    ensures PackCells(pk).Ok?
        <==> && (forall s :: 0 <= s < pk.NumFrames() ==> Grid.CopyFits(pk.layout, s, pk.file.width, pk.file.height))
             && (forall i :: 0 <= i < |pk.kept| ==> CelPaintable(pk, i))
  {
    var blank := Blank(pk.layout.Capacity());
    PaintFramesOk(pk, blank, pk.NumFrames());
    if PaintFrames(pk, blank, pk.NumFrames()).Ok? {
      PaintCelsOk(pk, PaintFrames(pk, blank, pk.NumFrames()).value, |pk.kept|);
    }
  }

  /** The packed cells: slot `s < num_frames` holds frame `s`; every other
      slot holds its kept cel's image (when the cel has pixels) with the
      images of that cel's descendants in the same frame on top, in
      enumeration order; unused slots stay blank. */
  lemma PackCellsEffect(pk: Packing)
    requires PaintOrder(pk) && CellsHoldImages(pk) && PackCells(pk).Ok?
    ensures var c := PackCells(pk).value;
      forall s :: 0 <= s < |c| ==>
        c[s] == if s < pk.NumFrames() then [FrameImage(s)]
                else OwnImage(pk, s, |pk.kept|) + Overlays(pk, s, |pk.kept|)
  {
    var blank := Blank(pk.layout.Capacity());
    PaintFramesEffect(pk, blank, pk.NumFrames());
    PaintCelsEffect(pk, PaintFrames(pk, blank, pk.NumFrames()).value, |pk.kept|);
  }

  /** When only groups have children, every layer on a group's ancestor
      chain is a group. */
  lemma {:induction false} ChainAreGroups(layers: seq<Layer>, parent: Option<nat>)
    requires ParentsInRange(layers) && ParentsPrecede(layers) && ParentsAreGroups(layers)
    requires parent.Some? ==> parent.value < |layers| && layers[parent.value].layerType == Group
    ensures forall a :: a in Chain(layers, parent) ==> layers[a].layerType == Group
    decreases if parent.Some? then parent.value + 1 else 0
  {
    match parent
    case None =>
    case Some(p) =>
      ChainAreGroups(layers, layers[p].parent);
      assert Chain(layers, parent) == [p] + Chain(layers, layers[p].parent);
  }

  /** Loading succeeds whenever only groups have children and the sprite is
      no higher than a cell: frames and cels fit, and each ancestor is a
      group, whose cels are all kept. */
  lemma LoadSucceeds(file: AseFile, celHeight: nat)
    requires WellFormed(file) && ParentsAreGroups(file.layers) && file.height <= celHeight
    ensures BuildWith(file, celHeight).Ok?
  {
    var pk := PackingOf(file, celHeight);
    var l, w, h := pk.layout, file.width, file.height;
    AtlasLayerIndexesBijection(file);
    forall s | 0 <= s < l.Capacity() ensures Grid.CopyFits(l, s, w, h) {
      Grid.CopyFitsWhenCellHoldsImage(l, s, w, h);
    }
    forall i | 0 <= i < |pk.kept| ensures CelPaintable(pk, i) {
      var key := pk.kept[i];
      assert ValidKey(file, key);
      ChainAreGroups(file.layers, ParentOf(pk, i));
      forall a | a in Chain(file.layers, ParentOf(pk, i)) ensures CelKey(a, key.frame) in pk.index {
        assert ValidKey(file, CelKey(a, key.frame));
      }
    }
    PackCellsOk(pk);
  }

  /** As written, a sprite no higher than one pixel more than its width
      loads. */
  lemma LoadSucceedsUnlessTall(file: AseFile)
    requires WellFormed(file) && ParentsAreGroups(file.layers) && file.height <= file.width + 1
    ensures Build(file).Ok?
  {
    LoadSucceeds(file, Grid.CelHeight(file.width, file.height));
  }

  /** With the intended cell height every well-formed sprite loads. */
  lemma IntendedLoadSucceeds(file: AseFile)
    requires WellFormed(file) && ParentsAreGroups(file.layers)
    ensures IntendedBuild(file).Ok?
  {
    LoadSucceeds(file, Grid.IntendedCelHeight(file.width, file.height));
  }

  /** A 2 x 4 sprite with three frames and no layers: as written, the third
      frame does not fit in the buffer and loading fails; with the intended
      cell height it loads. */
  lemma TallSpriteLoadFails()
    ensures var file := AseFile(2, 4, [], [[], [], []], [100, 100, 100], []);
      && WellFormed(file)
      && Build(file) == Err(CopyOutOfBounds(2))
      && IntendedBuild(file).Ok?
  {
    var file := AseFile(2, 4, [], [[], [], []], [100, 100, 100], []);
    assert WellFormed(file);
    var pk := PackingOf(file, Grid.CelHeight(2, 4));
    assert pk.kept == [];
    Grid.TallSpriteDoesNotFit();
    assert pk.layout == Grid.LayoutFor(2, 4, 3);
    var blank := Blank(pk.layout.Capacity());
    assert Grid.CopyFits(pk.layout, 0, 2, 4) && Grid.CopyFits(pk.layout, 1, 2, 4);
    PaintFramesOk(pk, blank, 2);
    assert PaintFrames(pk, blank, 3) == Err(CopyOutOfBounds(2));
    IntendedLoadSucceeds(file);
  }

  /** A 2 x 5 sprite with one frame: as written, the grid is 2 x 2 cells of
      3 x 3 pixels, the frame fits in the 6-pixel-high buffer and loading
      succeeds, but the copy at slot 0 covers rows 0 to 4, two of which lie
      in the cell of slot 2, directly below. */
  lemma TallSpriteSpills()
    ensures var file := AseFile(2, 5, [], [[]], [100], []);
      var pk := PackingOf(file, Grid.CelHeight(2, 5));
      && WellFormed(file)
      && Build(file).Ok?
      && pk.layout == Grid.Layout(2, 3, 3)
      && !CellsHoldImages(pk)
      && Grid.OriginX(pk.layout, 0) == Grid.OriginX(pk.layout, 2)
      && Grid.OriginY(pk.layout, 0) + file.height > Grid.OriginY(pk.layout, 2)
  {
    var file := AseFile(2, 5, [], [[]], [100], []);
    assert WellFormed(file);
    var pk := PackingOf(file, Grid.CelHeight(2, 5));
    assert pk.kept == [];
    assert Grid.Isqrt(1) == 1 by {
      assert Grid.Isqrt(0) == 0;
    }
    assert pk.layout == Grid.Layout(2, 3, 3);
    var blank := Blank(pk.layout.Capacity());
    assert Grid.CopyFits(pk.layout, 0, 2, 5);
    PaintFramesOk(pk, blank, 1);
    PackCellsOk(pk);
  }

  /** With the intended cell height, every image stays in its own cell, so
      a loaded asset's atlas holds exactly what the painting loops drew:
      frame `s` alone in slot `s`, each kept cel's own image and then its
      descendants' images in the cel's slot, and blank cells elsewhere. */
  lemma IntendedAtlasContents(file: AseFile)
    requires WellFormed(file) && ParentsAreGroups(file.layers)
    ensures IntendedBuild(file).Ok?
    ensures var a, pk := IntendedBuild(file).value, PackingOf(file, Grid.IntendedCelHeight(file.width, file.height));
      var F, K := file.NumFrames(), |pk.kept|;
      && CellsHoldImages(pk)
      && |a.atlas.cells| == pk.layout.Capacity()
      && (forall s :: 0 <= s < |a.atlas.cells| ==>
            a.atlas.cells[s] == if s < F then [FrameImage(s)] else OwnImage(pk, s, K) + Overlays(pk, s, K))
  {
    IntendedLoadSucceeds(file);
    LoadedAsset(file, Grid.IntendedCelHeight(file.width, file.height));
  }

  /** The asset a successful load publishes: names are full layer paths,
      tags and durations are the file's, frame `i` is slot `i`, the cel
      table holds exactly the kept cels with distinct slots after the
      frames, and, when the sprite is no taller than a cell, the atlas holds
      what the painting loops drew. When the
      frame and cel counts fit in `u32`, so do its fields. */
  lemma LoadedAsset(file: AseFile, celHeight: nat)
    requires WellFormed(file) && BuildWith(file, celHeight).Ok?
    ensures var a, pk := BuildWith(file, celHeight).value, PackingOf(file, celHeight);
      var F, K, m := file.NumFrames(), |pk.kept|, a.atlasLayerIndexes;
      && |a.layers| == file.NumLayers()
      && (forall i :: 0 <= i < |a.layers| ==> a.layers[i] == LayerNames.FullPath(file.layers, i))
      && a.tags == file.tags
      && a.frameDurations == file.durations
      && a.numFrames == F
      && FramesAreSlots(a)
      && (forall key :: key in m <==> ValidKey(file, key) && Keeps(file, key))
      && (forall key :: key in m ==> F <= m[key] < F + K)
      && Injective(m)
      && a.atlas.layout == pk.layout
      && |a.atlas.cells| == pk.layout.Capacity()
      && (file.height <= celHeight ==> forall s :: 0 <= s < |a.atlas.cells| ==>
            a.atlas.cells[s] == if s < F then [FrameImage(s)] else OwnImage(pk, s, K) + Overlays(pk, s, K))
      && (F + F * file.NumLayers() < U32_LIMIT ==> U32Fields(a))
  {
    var a, pk := BuildWith(file, celHeight).value, PackingOf(file, celHeight);
    var F, L := file.NumFrames(), file.NumLayers();
    forall i | 0 <= i < |a.layers| ensures a.layers[i] == LayerNames.FullPath(file.layers, i) {
      LayerNames.NamesAreFullPaths(file.layers, i);
    }
    AtlasLayerIndexesBijection(file);
    PaintOrderOfValid(pk);
    if file.height <= celHeight {
      PackCellsEffect(pk);
    }
    if F + F * L < U32_LIMIT {
      assert |pk.kept| <= F * L;
    }
  }

  /** For a loaded asset, when a layer's cels are kept in every frame of a
      tag, `atlas_range(layer, tag)` is the run of consecutive slots holding
      those cels, one per frame, in frame order. */
  lemma LoadedLayerTagRange(file: AseFile, celHeight: nat, layerName: string, tagName: string)
    requires WellFormed(file) && BuildWith(file, celHeight).Ok?
    requires file.NumFrames() + file.NumFrames() * file.NumLayers() < U32_LIMIT
    requires var a := BuildWith(file, celHeight).value;
      TagNamed(a, tagName).Ok? && LayerId(a, layerName).Ok?
    requires var a := BuildWith(file, celHeight).value;
      var t, l := TagNamed(a, tagName).value, LayerId(a, layerName).value;
      t.fromFrame <= t.toFrame && LayerRunKept(a.atlasLayerIndexes, l, t.fromFrame, t.toFrame)
    ensures var a := BuildWith(file, celHeight).value;
      var t, l := TagNamed(a, tagName).value, LayerId(a, layerName).value;
      var m := a.atlasLayerIndexes;
      U32Fields(a)
      && var r := AtlasRange(a, Some(layerName), Some(tagName));
      && r.Ok?
      && r.value.end - r.value.start == t.toFrame - t.fromFrame + 1
      && forall f :: t.fromFrame <= f <= t.toFrame ==> m[CelKey(l, f)] == r.value.start + (f - t.fromFrame)
  {
    var a := BuildWith(file, celHeight).value;
    var t, l := TagNamed(a, tagName).value, LayerId(a, layerName).value;
    var m := a.atlasLayerIndexes;
    LoadedAsset(file, celHeight);
    LayerTagRange(a, layerName, tagName);
    forall f | t.fromFrame <= f <= t.toFrame
      ensures m[CelKey(l, f)] == m[CelKey(l, t.fromFrame)] + (f - t.fromFrame)
    {
      LayerRunContiguous(file, l, t.fromFrame, f);
    }
  }
}
