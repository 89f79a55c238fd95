/** The loader's packing (src/assets.rs:87-199): every whole frame is copied
    into slots `0..num_frames`, every kept cel that holds pixels into its own
    slot `num_frames + i`, and overlaid onto the slot of each ancestor
    layer's cel for the same frame. The pixel buffer is an array with one
    entry per grid cell (= slot), holding the images drawn into that cell,
    bottom first: `copy_from` replaces the entry, `overlay` appends to it. */
module Loader {
  import opened Wrappers
  import opened Document
  import opened Slots
  import opened Asset
  import Grid
  import LayerNames

  type Cells = seq<seq<Image>>

  /** Why loading fails: `copy_from` refused an image that does not fit in
      the buffer (returned with `?`), or the ancestor lookup at line 138
      found no slot (a panic). */
  datatype LoadError = CopyOutOfBounds(slot: nat) | AncestorSlotMissing(key: CelKey)

  /** What the packing works with: the file, the kept cels, their slot table
      and the grid. */
  datatype Packing = Packing(file: AseFile, kept: seq<CelKey>, index: map<CelKey, nat>, layout: Grid.Layout)
  {
    function NumFrames(): nat { file.NumFrames() }

    /** Number of slots in use: whole frames and kept cels. */
    function Total(): nat { file.NumFrames() + |kept| }
  }

  /** What the painting loops rely on: a well-formed file, valid kept cels,
      slot numbers past the frames and a grid with room for every slot. */
  predicate Shaped(pk: Packing)
  {
    && WellFormed(pk.file)
    && (forall p :: 0 <= p < |pk.kept| ==> ValidKey(pk.file, pk.kept[p]))
    && (forall key :: key in pk.index ==> pk.NumFrames() <= pk.index[key] < pk.Total())
    && pk.Total() < pk.layout.Capacity()
  }

  /** The packing the loader sets up for `file`. */
  predicate ValidPacking(pk: Packing)
  {
    && Shaped(pk)
    && pk.kept == AllKeptCels(pk.file)
    && pk.index == AtlasLayerIndexes(pk.file)
    && pk.layout.rows == Grid.NumRows(pk.Total())
    && pk.layout.celWidth == Grid.CelWidth(pk.file.width)
  }

  /** The packing of `file` into a grid whose cells are `celHeight` pixels
      high. */
  function PackingOf(file: AseFile, celHeight: nat): (pk: Packing)
    requires WellFormed(file)
    ensures ValidPacking(pk) && pk.file == file && pk.layout.celHeight == celHeight
  {
    AtlasLayerIndexesBijection(file);
    var kept := AllKeptCels(file);
    var total := file.NumFrames() + |kept|;
    var rows := Grid.NumRows(total);
    var pk := Packing(file, kept, AtlasLayerIndexes(file), Grid.Layout(rows, Grid.CelWidth(file.width), celHeight));
    assert pk.Total() < pk.layout.Capacity() by {
      assert total < rows * rows;
    }
    assert forall key :: key in pk.index ==> pk.index[key] in pk.index.Values;
    assert Shaped(pk);
    pk
  }

  /** The sprite is no taller than a cell, so a copy or an overlay at a slot
      draws inside that slot's cell only. A taller image (which the loader
      as written accepts whenever it still fits in the buffer) also covers
      the top rows of the cell `rows` slots further on; the cell model does
      not record that spill, so what it says a cell holds is only claimed
      under this predicate. */
  predicate CellsHoldImages(pk: Packing)
  {
    pk.file.height <= pk.layout.celHeight
  }

  /** The buffer as allocated: every cell blank. */
  function Blank(n: nat): (cells: Cells)
    ensures |cells| == n && forall s :: 0 <= s < n ==> cells[s] == []
  {
    seq(n, _ => [])
  }

  /** `buffer.copy_from(image, x, y)?` for an image of the sprite's size at
      slot `slot`. */
  function CopyInto(pk: Packing, cells: Cells, slot: nat, img: Image): (r: Result<Cells, LoadError>)
    requires Shaped(pk) && slot < |cells|
    ensures r.Ok? <==> Grid.CopyFits(pk.layout, slot, pk.file.width, pk.file.height)
    ensures r.Err? ==> r.error == CopyOutOfBounds(slot)
    ensures r.Ok? ==> |r.value| == |cells| && r.value[slot] == [img]
                      && forall s :: 0 <= s < |cells| && s != slot ==> r.value[s] == cells[s]
  {
    if Grid.CopyFits(pk.layout, slot, pk.file.width, pk.file.height) then Ok(cells[slot := [img]])
    else Err(CopyOutOfBounds(slot))
  }

  /** `imageops::overlay(&mut buffer, image, x, y)`: draws on top, clipped. */
  function Overlay(cells: Cells, slot: nat, img: Image): (c: Cells)
    requires slot < |cells|
    ensures |c| == |cells| && c[slot] == cells[slot] + [img]
    ensures forall s :: 0 <= s < |cells| && s != slot ==> c[s] == cells[s]
  {
    cells[slot := cells[slot] + [img]]
  }

  /** The first loop: whole frames `0..n` copied into their slots. */
  function PaintFrames(pk: Packing, cells: Cells, n: nat): (r: Result<Cells, LoadError>)
    requires Shaped(pk) && |cells| == pk.layout.Capacity() && n <= pk.NumFrames()
    ensures r.Ok? ==> |r.value| == |cells|
  {
    if n == 0 then Ok(cells)
    else
      var c :- PaintFrames(pk, cells, n - 1);
      CopyInto(pk, c, n - 1, FrameImage(n - 1))
  }

  /** The `while let` loop: overlay `img` onto the slot of the cel of every
      layer on the chain from `parent` upward, for frame `frame`. */
  function PaintAncestors(pk: Packing, cells: Cells, frame: nat, parent: Option<nat>, img: Image): (r: Result<Cells, LoadError>)
    requires Shaped(pk) && |cells| == pk.layout.Capacity()
    requires parent.Some? ==> parent.value < pk.file.NumLayers()
    ensures r.Ok? ==> |r.value| == |cells|
    decreases if parent.Some? then parent.value + 1 else 0
  {
    match parent
    case None => Ok(cells)
    case Some(p) =>
      var key := CelKey(p, frame);
      if key !in pk.index then Err(AncestorSlotMissing(key))
      else PaintAncestors(pk, Overlay(cells, pk.index[key], img), frame, pk.file.layers[p].parent, img)
  }

  /** Does the `i`-th kept cel hold pixels (`non_empty_cel_images[i]` is `Some`)? */
  predicate HasPixels(pk: Packing, i: nat)
    requires Shaped(pk) && i < |pk.kept|
  {
    !CelIsEmpty(pk.file, pk.kept[i].frame, pk.kept[i].layer)
  }

  function CelImageOf(pk: Packing, i: nat): Image
    requires Shaped(pk) && i < |pk.kept|
  {
    CelImage(pk.kept[i].layer, pk.kept[i].frame)
  }

  /** The ancestor layers of the `i`-th kept cel's layer, innermost first. */
  function AncestorsOf(pk: Packing, i: nat): seq<nat>
    requires Shaped(pk) && i < |pk.kept|
  {
    Chain(pk.file.layers, pk.file.layers[pk.kept[i].layer].parent)
  }

  /** One iteration of the second loop, for the `i`-th kept cel. */
  function PaintCel(pk: Packing, cells: Cells, i: nat): (r: Result<Cells, LoadError>)
    requires Shaped(pk) && |cells| == pk.layout.Capacity() && i < |pk.kept|
    ensures r.Ok? ==> |r.value| == |cells|
  {
    if !HasPixels(pk, i) then Ok(cells)
    else
      var c :- CopyInto(pk, cells, pk.NumFrames() + i, CelImageOf(pk, i));
      PaintAncestors(pk, c, pk.kept[i].frame, pk.file.layers[pk.kept[i].layer].parent, CelImageOf(pk, i))
  }

  /** The second loop over the kept cels `0..n`. */
  function PaintCels(pk: Packing, cells: Cells, n: nat): (r: Result<Cells, LoadError>)
    requires Shaped(pk) && |cells| == pk.layout.Capacity() && n <= |pk.kept|
    ensures r.Ok? ==> |r.value| == |cells|
  {
    if n == 0 then Ok(cells)
    else
      var c :- PaintCels(pk, cells, n - 1);
      PaintCel(pk, c, n - 1)
  }

  /** Both loops, from a blank buffer. */
  function PackCells(pk: Packing): (r: Result<Cells, LoadError>)
    requires Shaped(pk)
    ensures r.Ok? ==> |r.value| == pk.layout.Capacity()
  {
    var c :- PaintFrames(pk, Blank(pk.layout.Capacity()), pk.NumFrames());
    PaintCels(pk, c, |pk.kept|)
  }

  /** `atlas_indexes`: frame `i` is slot `i`. */
  function Identity(n: nat): (s: seq<nat>)
    ensures |s| == n && forall i :: 0 <= i < n ==> s[i] == i
  {
    seq(n, i => i)
  }

  /** The asset the loader publishes for cells `celHeight` pixels high, or
      the reason it fails. */
  function BuildWith(file: AseFile, celHeight: nat): (r: Result<Aseprite, LoadError>)
    requires WellFormed(file)
    ensures r.Ok? <==> PackCells(PackingOf(file, celHeight)).Ok?
    ensures r.Err? ==> r.error == PackCells(PackingOf(file, celHeight)).error
    ensures r.Ok? ==> r.value.atlas.layout == PackingOf(file, celHeight).layout && r.value.atlas.layout.celHeight == celHeight
  {
    var pk := PackingOf(file, celHeight);
    var cells :- PackCells(pk);
    Ok(Aseprite(
      LayerNames.NamesAfter(file.layers, file.NumLayers()),
      file.tags,
      file.durations,
      file.NumFrames(),
      Identity(file.NumFrames()),
      pk.index,
      Atlas(pk.layout, cells)))
  }

  /** The loader as written: cells as high as they are wide. */
  function Build(file: AseFile): (r: Result<Aseprite, LoadError>)
    requires WellFormed(file)
    ensures r.Ok? ==> r.value.atlas.layout.celHeight == file.width + 1
  {
    BuildWith(file, Grid.CelHeight(file.width, file.height))
  }

  /** The loader with cells one pixel higher than the sprite. */
  function IntendedBuild(file: AseFile): (r: Result<Aseprite, LoadError>)
    requires WellFormed(file)
    ensures r.Ok? ==> r.value.atlas.layout.celHeight == file.height + 1
  {
    BuildWith(file, Grid.IntendedCelHeight(file.width, file.height))
  }

  /** Once a step of the second loop fails, the loop fails the same way. */
  lemma {:induction false} PaintCelsErrPersists(pk: Packing, cells: Cells, n: nat, m: nat)
    requires Shaped(pk) && |cells| == pk.layout.Capacity() && n <= m <= |pk.kept|
    requires PaintCels(pk, cells, n).Err?
    ensures PaintCels(pk, cells, m) == PaintCels(pk, cells, n)
  {
    if n < m {
      PaintCelsErrPersists(pk, cells, n, m - 1);
    }
  }

  lemma {:induction false} PaintFramesErrPersists(pk: Packing, cells: Cells, n: nat, m: nat)
    requires Shaped(pk) && |cells| == pk.layout.Capacity() && n <= m <= pk.NumFrames()
    requires PaintFrames(pk, cells, n).Err?
    ensures PaintFrames(pk, cells, m) == PaintFrames(pk, cells, n)
  {
    if n < m {
      PaintFramesErrPersists(pk, cells, n, m - 1);
    }
  }

  /** The first loop (lines 119-125), on the buffer. */
  method PaintFramesInto(pk: Packing, buffer: array<seq<Image>>) returns (err: Option<LoadError>)
    requires Shaped(pk) && buffer.Length == pk.layout.Capacity()
    modifies buffer
    ensures err.None? ==> PaintFrames(pk, old(buffer[..]), pk.NumFrames()) == Ok(buffer[..])
    ensures err.Some? ==> PaintFrames(pk, old(buffer[..]), pk.NumFrames()) == Err(err.value)
  {
    ghost var start := buffer[..];
    for frame := 0 to pk.NumFrames()
      invariant PaintFrames(pk, start, frame) == Ok(buffer[..])
    {
      if !Grid.CopyFits(pk.layout, frame, pk.file.width, pk.file.height) {
        PaintFramesErrPersists(pk, start, frame + 1, pk.NumFrames());
        return Some(CopyOutOfBounds(frame));
      }
      buffer[frame] := [FrameImage(frame)];
    }
    return None;
  }

  /** The `while let` loop (lines 134-146): overlay `img` onto the slot of
      every ancestor's cel for `frame`. */
  method PaintAncestorsInto(pk: Packing, buffer: array<seq<Image>>, frame: nat, parent0: Option<nat>, img: Image)
    returns (err: Option<LoadError>)
    requires Shaped(pk) && buffer.Length == pk.layout.Capacity()
    requires parent0.Some? ==> parent0.value < pk.file.NumLayers()
    modifies buffer
    ensures err.None? ==> PaintAncestors(pk, old(buffer[..]), frame, parent0, img) == Ok(buffer[..])
    ensures err.Some? ==> PaintAncestors(pk, old(buffer[..]), frame, parent0, img) == Err(err.value)
  {
    ghost var start := buffer[..];
    var parent: Option<nat> := parent0;
    while parent.Some?
      invariant parent.Some? ==> parent.value < pk.file.NumLayers()
      invariant PaintAncestors(pk, buffer[..], frame, parent, img) == PaintAncestors(pk, start, frame, parent0, img)
      decreases if parent.Some? then parent.value + 1 else 0
    {
      var p := parent.value;
      var key := CelKey(p, frame);
      if key !in pk.index {
        return Some(AncestorSlotMissing(key));
      }
      var target := pk.index[key];
      ghost var current := buffer[..];
      buffer[target] := buffer[target] + [img];
      assert buffer[..] == Overlay(current, target, img);
      assert ParentsPrecede(pk.file.layers) && p < |pk.file.layers|;
      parent := pk.file.layers[p].parent;
    }
    return None;
  }

  /** One iteration of the second loop (lines 127-147): copy the `i`-th kept
      cel into its slot, then walk its parent chain. */
  method PaintCelInto(pk: Packing, buffer: array<seq<Image>>, i: nat) returns (err: Option<LoadError>)
    requires Shaped(pk) && buffer.Length == pk.layout.Capacity() && i < |pk.kept|
    modifies buffer
    ensures err.None? ==> PaintCel(pk, old(buffer[..]), i) == Ok(buffer[..])
    ensures err.Some? ==> PaintCel(pk, old(buffer[..]), i) == Err(err.value)
  {
    var key := pk.kept[i];
    assert ValidKey(pk.file, key);
    if CelIsEmpty(pk.file, key.frame, key.layer) {
      return None;
    }
    var img := CelImage(key.layer, key.frame);
    var slot := pk.NumFrames() + i;
    if !Grid.CopyFits(pk.layout, slot, pk.file.width, pk.file.height) {
      return Some(CopyOutOfBounds(slot));
    }
    ghost var before := buffer[..];
    buffer[slot] := [img];
    assert CopyInto(pk, before, slot, img) == Ok(buffer[..]);
    err := PaintAncestorsInto(pk, buffer, key.frame, pk.file.layers[key.layer].parent, img);
  }

  /** The second loop (lines 126-148), on the buffer. */
  method PaintCelsInto(pk: Packing, buffer: array<seq<Image>>) returns (err: Option<LoadError>)
    requires Shaped(pk) && buffer.Length == pk.layout.Capacity()
    modifies buffer
    ensures err.None? ==> PaintCels(pk, old(buffer[..]), |pk.kept|) == Ok(buffer[..])
    ensures err.Some? ==> PaintCels(pk, old(buffer[..]), |pk.kept|) == Err(err.value)
  {
    ghost var start := buffer[..];
    for i := 0 to |pk.kept|
      invariant PaintCels(pk, start, i) == Ok(buffer[..])
    {
      err := PaintCelInto(pk, buffer, i);
      if err.Some? {
        PaintCelsErrPersists(pk, start, i + 1, |pk.kept|);
        return;
      }
    }
    return None;
  }

  /** `AsepriteLoader::load` from the decoded file on: allocates the buffer,
      runs the two painting loops and builds the asset. */
  method Load(file: AseFile) returns (r: Result<Aseprite, LoadError>)
    requires WellFormed(file)
    ensures r == Build(file)
  {
    var pk := PackingOf(file, Grid.CelHeight(file.width, file.height));
    var buffer := new seq<Image>[pk.layout.Capacity()](_ => []);
    assert buffer[..] == Blank(pk.layout.Capacity());
    var err := PaintFramesInto(pk, buffer);
    if err.Some? {
      return Err(err.value);
    }
    err := PaintCelsInto(pk, buffer);
    if err.Some? {
      return Err(err.value);
    }
    var names := LayerNames.QualifyNames(file.layers);
    r := Ok(Aseprite(names, file.tags, file.durations, file.NumFrames(), Identity(file.NumFrames()),
                     pk.index, Atlas(pk.layout, buffer[..])));
  }
}
