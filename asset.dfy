/** The loaded sprite asset `Aseprite` and its lookups (src/assets.rs:15-72):
    `layer_id`, `tag`, `frame_duration` and `atlas_range`. A panic of the
    source (a lookup miss, an index out of bounds, a `u32` overflow) is an
    `Err` here. */
module Asset {
  import opened Wrappers
  import opened Document
  import opened Slots
  import Grid

  /** A half-open range `start..end` of atlas slots. */
  datatype Range = Range(start: int, end: int)

  /** The packed texture: the grid and, for each cell (= slot), the images
      drawn into it, bottom first. */
  datatype Atlas = Atlas(layout: Grid.Layout, cells: seq<seq<Image>>)

  /** The asset built by the loader. `layers` holds the qualified layer names,
      `frameDurations` milliseconds per frame. */
  datatype Aseprite = Aseprite(
    layers: seq<string>,
    tags: seq<Tag>,
    frameDurations: seq<nat>,
    numFrames: nat,
    atlasIndexes: seq<nat>,
    atlasLayerIndexes: map<CelKey, nat>,
    atlas: Atlas)

  /** What makes a lookup panic. */
  datatype Panic =
    | LayerNotFound(layerName: string)
    | TagNotFound(tagName: string)
    | FrameOutOfRange(frame: int)
    | MissingCel(key: CelKey)
    | ArithmeticOverflow(overflow: Overflow)

  /** The `u32` fields of the asset hold `u32` values. */
  predicate U32Fields(a: Aseprite)
  {
    && IsU32(a.numFrames)
    && (forall i :: 0 <= i < |a.atlasIndexes| ==> IsU32(a.atlasIndexes[i]))
    && (forall key :: key in a.atlasLayerIndexes ==> IsU32(a.atlasLayerIndexes[key]))
  }

  function Checked<T>(r: Result<T, Overflow>): (p: Result<T, Panic>)
    ensures p.Ok? <==> r.Ok?
    ensures p.Ok? ==> p.value == r.value
  {
    match r
    case Ok(v) => Ok(v)
    case Err(o) => Err(ArithmeticOverflow(o))
  }

  /** `Iterator::position`: the index of the first entry equal to `name`. */
  function Position(names: seq<string>, name: string): (r: Option<nat>)
    ensures r.None? <==> name !in names
    ensures r.Some? ==> r.value < |names| && names[r.value] == name
    ensures r.Some? ==> forall j :: 0 <= j < r.value ==> names[j] != name
  {
    if names == [] then None
    else if names[0] == name then Some(0)
    else
      match Position(names[1..], name)
      case None => None
      case Some(i) => Some(i + 1)
  }

  /** `layer_id(name)`: the index of the first layer called `name`; a panic
      when there is none. */
  function LayerId(a: Aseprite, name: string): (r: Result<nat, Panic>)
    ensures r.Err? <==> name !in a.layers
    ensures r.Err? ==> r.error == LayerNotFound(name)
    ensures r.Ok? ==> r.value < |a.layers| && a.layers[r.value] == name
    ensures r.Ok? ==> forall j :: 0 <= j < r.value ==> a.layers[j] != name
  {
    match Position(a.layers, name)
    case None => Err(LayerNotFound(name))
    case Some(i) => Ok(i)
  }

  /** Index of the first tag called `name`, as `Iterator::find` visits them. */
  function FindTag(tags: seq<Tag>, name: string): (r: Option<nat>)
    ensures r.None? <==> forall i :: 0 <= i < |tags| ==> tags[i].name != name
    ensures r.Some? ==> r.value < |tags| && tags[r.value].name == name
    ensures r.Some? ==> forall j :: 0 <= j < r.value ==> tags[j].name != name
  {
    if tags == [] then None
    else if tags[0].name == name then Some(0)
    else
      match FindTag(tags[1..], name)
      case None => None
      case Some(i) =>
        assert forall j :: 1 <= j <= i ==> tags[j] == tags[1..][j - 1];
        Some(i + 1)
  }

  /** `tag(name)`: the first tag called `name`; a panic when there is none. */
  function TagNamed(a: Aseprite, name: string): (r: Result<Tag, Panic>)
    ensures r.Err? <==> forall i :: 0 <= i < |a.tags| ==> a.tags[i].name != name
    ensures r.Err? ==> r.error == TagNotFound(name)
    ensures r.Ok? ==> r.value.name == name
    ensures r.Ok? ==> exists i :: (0 <= i < |a.tags| && a.tags[i] == r.value
                                   && forall j :: 0 <= j < i ==> a.tags[j].name != name)
  {
    match FindTag(a.tags, name)
    case None => Err(TagNotFound(name))
    case Some(i) => Ok(a.tags[i])
  }

  /** `frame_duration(frame)`: the duration of `frame`; a panic past the end. */
  function FrameDuration(a: Aseprite, frame: nat): (r: Result<nat, Panic>)
    ensures r.Ok? <==> frame < |a.frameDurations|
    ensures r.Ok? ==> r.value == a.frameDurations[frame]
    ensures r.Err? ==> r.error == FrameOutOfRange(frame)
  {
    if frame < |a.frameDurations| then Ok(a.frameDurations[frame]) else Err(FrameOutOfRange(frame))
  }

  /** `atlas_indexes[frame]` */
  function FrameSlot(a: Aseprite, frame: nat): (r: Result<nat, Panic>)
    ensures r.Ok? <==> frame < |a.atlasIndexes|
    ensures r.Ok? ==> r.value == a.atlasIndexes[frame]
  {
    if frame < |a.atlasIndexes| then Ok(a.atlasIndexes[frame]) else Err(FrameOutOfRange(frame))
  }

  /** `atlas_layer_indexes[&(layer, frame)]` */
  function LayerSlot(a: Aseprite, layer: nat, frame: nat): (r: Result<nat, Panic>)
    ensures r.Ok? <==> CelKey(layer, frame) in a.atlasLayerIndexes
    ensures r.Ok? ==> r.value == a.atlasLayerIndexes[CelKey(layer, frame)]
    ensures r.Err? ==> r.error == MissingCel(CelKey(layer, frame))
  {
    var key := CelKey(layer, frame);
    if key in a.atlasLayerIndexes then Ok(a.atlasLayerIndexes[key]) else Err(MissingCel(key))
  }

  /** `tag_name.map(|name| self.tag(name))` */
  function OptionalTag(a: Aseprite, tagName: Option<string>): Result<Option<Tag>, Panic>
  {
    match tagName
    case None => Ok(None)
    case Some(name) => var t :- TagNamed(a, name); Ok(Some(t))
  }

  /** `layer_name.map(|name| self.layer_id(name))` */
  function OptionalLayer(a: Aseprite, layerName: Option<string>): Result<Option<nat>, Panic>
  {
    match layerName
    case None => Ok(None)
    case Some(name) => var l :- LayerId(a, name); Ok(Some(l))
  }

  /** `atlas_range(layer, tag)`: the slots to play for a layer and/or tag
      filter. The tag is looked up before the layer. */
  function AtlasRange(a: Aseprite, layerName: Option<string>, tagName: Option<string>): (r: Result<Range, Panic>)
    requires U32Fields(a)
    ensures r.Ok? ==> IsU32(r.value.start) && IsU32(r.value.end)
    ensures tagName.Some? && TagNamed(a, tagName.value).Err? ==> r == Err(TagNotFound(tagName.value))
    ensures (tagName.None? || TagNamed(a, tagName.value).Ok?) && layerName.Some? && LayerId(a, layerName.value).Err?
            ==> r == Err(LayerNotFound(layerName.value))
  {
    var tag :- OptionalTag(a, tagName);
    var layer :- OptionalLayer(a, layerName);
    match (tag, layer)
    case (Some(t), Some(l)) =>
      var s :- LayerSlot(a, l, t.fromFrame);
      var e :- LayerSlot(a, l, t.toFrame);
      var end :- Checked(AddU32(e, 1));
      Ok(Range(s, end))
    case (Some(t), None) =>
      var s :- FrameSlot(a, t.fromFrame);
      var e :- FrameSlot(a, t.toFrame);
      var end :- Checked(AddU32(e, 1));
      Ok(Range(s, end))
    case (None, Some(l)) =>
      var s :- LayerSlot(a, l, 0);
      var last :- Checked(SubU32(a.numFrames, 1));
      var e :- LayerSlot(a, l, last);
      var end :- Checked(AddU32(e, 1));
      Ok(Range(s, end))
    case (None, None) =>
      Ok(Range(0, a.numFrames))
  }

  /** Whole-frame slots are the identity on frames, as the loader builds them. */
  predicate FramesAreSlots(a: Aseprite)
  {
    |a.atlasIndexes| == a.numFrames && forall i :: 0 <= i < a.numFrames ==> a.atlasIndexes[i] == i
  }

  /** Without a filter the range covers every whole-frame slot. */
  lemma DefaultRange(a: Aseprite)
    requires U32Fields(a)
    ensures AtlasRange(a, None, None) == Ok(Range(0, a.numFrames))
  {
  }

  /** With only a tag, the range is the tag's frames `from..to + 1`, as long
      as the tag lies inside the animation; a tag past the last frame panics. */
  lemma TagRange(a: Aseprite, tagName: string)
    requires U32Fields(a) && FramesAreSlots(a)
    requires TagNamed(a, tagName).Ok?
    ensures var t := TagNamed(a, tagName).value;
      && (t.fromFrame < a.numFrames && t.toFrame < a.numFrames
          <==> AtlasRange(a, None, Some(tagName)).Ok?)
      && (AtlasRange(a, None, Some(tagName)).Ok? ==>
          AtlasRange(a, None, Some(tagName)).value == Range(t.fromFrame, t.toFrame + 1))
  {
  }

  /** A name that matches no tag makes the lookup panic, before the layer is
      looked up. */
  lemma UnknownTagPanics(a: Aseprite, layerName: Option<string>, tagName: string)
    requires U32Fields(a)
    requires forall i :: 0 <= i < |a.tags| ==> a.tags[i].name != tagName
    ensures AtlasRange(a, layerName, Some(tagName)) == Err(TagNotFound(tagName))
  {
  }

  /** With a layer and a tag, the range runs from the slot of the layer's cel
      in the tag's first frame to one past the slot of its cel in the tag's
      last frame; it panics when either cel has no slot, or when the last
      slot is the largest `u32` and `+ 1` overflows. */
  lemma LayerTagRange(a: Aseprite, layerName: string, tagName: string)
    requires U32Fields(a)
    requires TagNamed(a, tagName).Ok? && LayerId(a, layerName).Ok?
    ensures var t, l := TagNamed(a, tagName).value, LayerId(a, layerName).value;
      var m := a.atlasLayerIndexes;
      var r := AtlasRange(a, Some(layerName), Some(tagName));
      && (CelKey(l, t.fromFrame) !in m ==> r == Err(MissingCel(CelKey(l, t.fromFrame))))
      && (CelKey(l, t.fromFrame) in m && CelKey(l, t.toFrame) !in m ==> r == Err(MissingCel(CelKey(l, t.toFrame))))
      && (CelKey(l, t.fromFrame) in m && CelKey(l, t.toFrame) in m && m[CelKey(l, t.toFrame)] + 1 < U32_LIMIT ==>
          r == Ok(Range(m[CelKey(l, t.fromFrame)], m[CelKey(l, t.toFrame)] + 1)))
      && (CelKey(l, t.fromFrame) in m && CelKey(l, t.toFrame) in m && m[CelKey(l, t.toFrame)] + 1 >= U32_LIMIT ==>
          r == Err(ArithmeticOverflow(AddOverflow)))
  {
  }

  /** With only a layer, the range runs over the layer's cels from frame 0 to
      frame `num_frames - 1`; it panics when either cel has no slot, or when
      there are no frames (`num_frames - 1` underflows), or when the last
      slot is the largest `u32` and `+ 1` overflows. */
  lemma LayerOnlyRange(a: Aseprite, layerName: string)
    requires U32Fields(a)
    requires LayerId(a, layerName).Ok?
    ensures var l := LayerId(a, layerName).value;
      var m := a.atlasLayerIndexes;
      var r := AtlasRange(a, Some(layerName), None);
      && (CelKey(l, 0) !in m ==> r == Err(MissingCel(CelKey(l, 0))))
      && (CelKey(l, 0) in m && a.numFrames == 0 ==> r == Err(ArithmeticOverflow(SubUnderflow)))
      && (a.numFrames > 0 && CelKey(l, 0) in m && CelKey(l, a.numFrames - 1) !in m ==>
          r == Err(MissingCel(CelKey(l, a.numFrames - 1))))
      && (a.numFrames > 0 && CelKey(l, 0) in m && CelKey(l, a.numFrames - 1) in m
          && m[CelKey(l, a.numFrames - 1)] + 1 < U32_LIMIT ==>
          r == Ok(Range(m[CelKey(l, 0)], m[CelKey(l, a.numFrames - 1)] + 1)))
      && (a.numFrames > 0 && CelKey(l, 0) in m && CelKey(l, a.numFrames - 1) in m
          && m[CelKey(l, a.numFrames - 1)] + 1 >= U32_LIMIT ==>
          r == Err(ArithmeticOverflow(AddOverflow)))
  {
  }
}
