/** The decoded sprite document the loader reads: the parts of an Aseprite
    file (as the asefile crate presents it) that the atlas compilation uses.
    Pixel contents are abstract: an image is named by where it comes from. */
module Document {
  import opened Wrappers

  datatype LayerType = Normal | Group

  /** A layer record; `parent` is the id of the enclosing group layer. */
  datatype Layer = Layer(name: string, layerType: LayerType, parent: Option<nat>)

  /** Playback direction stored in a tag. */
  datatype TagDirection = Forward | Reverse | PingPong

  /** A named clip: frames `fromFrame..=toFrame`. */
  datatype Tag = Tag(name: string, fromFrame: nat, toFrame: nat, direction: TagDirection)

  /** An image, identified by its origin: the composited whole frame, or the
      pixels of one cel (one layer in one frame). */
  datatype Image = FrameImage(frame: nat) | CelImage(layer: nat, frame: nat)

  /** The decoded file. `celEmpty[frame][layer]` says whether the cel holds
      no pixels; `durations[frame]` is the frame's duration in milliseconds,
      so the number of frames is `|durations|`. */
  datatype AseFile = AseFile(
    width: nat,
    height: nat,
    layers: seq<Layer>,
    celEmpty: seq<seq<bool>>,
    durations: seq<nat>,
    tags: seq<Tag>)
  {
    function NumFrames(): nat { |durations| }

    function NumLayers(): nat { |layers| }
  }

  /** Every parent id names an existing layer. */
  predicate ParentsInRange(layers: seq<Layer>)
  {
    forall id :: 0 <= id < |layers| && layers[id].parent.Some? ==> layers[id].parent.value < |layers|
  }

  /** Every parent comes before its child in id order, as it does in a file
      where a group is listed before the layers nested in it. */
  predicate ParentsPrecede(layers: seq<Layer>)
  {
    forall id :: 0 <= id < |layers| && layers[id].parent.Some? ==> layers[id].parent.value < id
  }

  /** Only group layers have children (as in the Aseprite editor). */
  predicate ParentsAreGroups(layers: seq<Layer>)
    requires ParentsInRange(layers)
  {
    forall id :: 0 <= id < |layers| && layers[id].parent.Some? ==>
      layers[layers[id].parent.value].layerType == Group
  }

  /** The shape the decoder guarantees: one cel per frame and layer, and a
      layer forest whose parents precede their children. */
  predicate WellFormed(file: AseFile)
  {
    && |file.celEmpty| == file.NumFrames()
    && (forall f :: 0 <= f < |file.celEmpty| ==> |file.celEmpty[f]| == file.NumLayers())
    && ParentsInRange(file.layers)
    && ParentsPrecede(file.layers)
  }

  /** `asefile.cel(frame, layer).is_empty()` */
  predicate CelIsEmpty(file: AseFile, frame: nat, layer: nat)
    requires WellFormed(file)
    requires frame < file.NumFrames() && layer < file.NumLayers()
  {
    file.celEmpty[frame][layer]
  }

  /** The ancestor chain that starts at `parent` and follows parent links
      upward: the layers the `while let` loop of the loader visits. */
  function Chain(layers: seq<Layer>, parent: Option<nat>): (chain: seq<nat>)
    requires ParentsInRange(layers) && ParentsPrecede(layers)
    requires parent.Some? ==> parent.value < |layers|
    ensures forall k :: 0 <= k < |chain| ==> chain[k] < |layers|
    ensures parent.Some? ==> forall k :: 0 <= k < |chain| ==> chain[k] <= parent.value
    ensures parent.None? <==> chain == []
    decreases if parent.Some? then parent.value + 1 else 0
  {
    match parent
    case None => []
    case Some(p) => [p] + Chain(layers, layers[p].parent)
  }
}
