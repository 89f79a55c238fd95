# bevy_asefile, modelled in Dafny

bevy_asefile loads Aseprite sprite files into the Bevy engine and plays their
animations. This project models three parts of it and proves properties about them:

- **The asset loader** (`src/assets.rs`):
  - It takes a decoded Aseprite file.
  - It decides which cels get a slot of their own in the texture atlas. A cel is one layer in one frame. It keeps every cel of a group layer, and every other cel that holds pixels.
  - It numbers the slots. Whole frame `f` is slot `f`. The `i`-th kept cel is slot `num_frames + i`.
  - It packs them into a square grid of padded cells. It copies each frame and each cel into its own cell, and overlays each cel onto the cells of its ancestor group layers for the same frame.
  - It qualifies layer names with their parents' names (`"Woman::Hair"`).
  - It publishes the `Aseprite` asset.
- **The asset's lookups**: `layer_id`, `tag`, `frame_duration` and `atlas_range`. `atlas_range` turns an optional layer filter and an optional tag filter into a range of atlas slots to play.
- **The playback systems** (`src/systems.rs`):
  - `fixup_aseprite_animation` starts an animation on the range its filter selects.
  - `animate_aseprite` advances it each tick. It consumes frame durations and steps the current slot Forward, Backward or PingPong.
- **The `coalesce!` macro** (`src/utils.rs`).

How the model represents the source:
- Images are abstract. An image is named by where it comes from: a whole frame, or one cel.
- A grid cell of the pixel buffer holds the images drawn into it, bottom first:
  - `copy_from` bounds-checks the image against the buffer, then replaces the cell's contents;
  - `overlay` appends to them.
- Slot arithmetic uses `u32` with debug-build overflow checks.
- Every panic of the source is an `Err`: an overflow, a map lookup miss, an index out of range, or an unknown layer or tag name.
- Durations are whole milliseconds.

Files:
- `wrappers.dfy`: `Option`, `Result`, checked `u32` addition and subtraction.
- `document.dfy`: the decoded file (layers with parent ids, tags, per-cel emptiness, frame durations).
- `grid.dfy`: grid size, cell origins and the geometry facts about them.
- `slots.dfy`: the kept cels and `atlas_layer_indexes`.
- `layer_names.dfy`: the loop that qualifies layer names.
- `asset.dfy`: the `Aseprite` value and its lookups.
- `loader.dfy`: the specification of the two painting loops, and the imperative loader over an array buffer.
- `loader_properties.dfy`: what the loader leaves in the atlas, and when it succeeds.
- `playback.dfy`: the `AsepriteAnimation` and `TextureAtlasSprite` classes and the two systems.
- `playback_properties.dfy`: stepping, settling and start-up properties, plus the corrected stepper.
- `coalesce.dfy`: the macro's expansion.

Three behaviours of the playback systems that are easy to miss, which the model keeps as the source has them:
- Starting an animation does not reset the `pong` flag.
- The tick's `delta` is added to the elapsed time after the stepping loop, so it only takes effect on the next tick.
- A frame's duration is looked up by the offset of the slot from the start of the range, not by the frame number.

## Model

| member | source | states |
|---|---|---|
| Wrappers.AddU32 | src/systems.rs:80 | `u32` addition succeeds exactly when the sum is below 2^32, and then yields the sum |
| Wrappers.SubU32 | src/systems.rs:87 | `u32` subtraction succeeds exactly when it does not go below zero, and then yields the difference |
| Document.Chain | src/assets.rs:135-146 | the ancestor ids visited from a parent are layer ids no larger than it; the chain is empty exactly when there is no parent |
| Grid.Isqrt | src/assets.rs:116 | the integer square root: `r*r <= n < (r+1)*(r+1)` |
| Grid.NumRows | src/assets.rs:116 | the grid has the fewest rows whose square exceeds the slots in use: at least one row, more cells than slots in use, and one row fewer would not give more cells than slots in use |
| Grid.CelHeight | src/assets.rs:91 | as written, the cell height equals the cell width, which is taken from the image width |
| Grid.IntendedCelHeight | src/assets.rs:91 | the intended cell height is larger than the image height |
| Grid.LayoutFor | src/assets.rs:87-91 | the grid for `total` slots has room for all of them |
| Grid.CellInBuffer | src/assets.rs:117 | the cell of every slot below the capacity lies inside the buffer |
| Grid.SlotFromOrigin | src/assets.rs:122-123 | a cell's origin determines its slot |
| Grid.CellsDisjoint | src/assets.rs:129-133 | the cells of two different slots do not overlap |
| Grid.CopyFitsWhenCellHoldsImage | src/assets.rs:120-124 | `copy_from` accepts an image no larger than the unpadded cell, at every slot below the capacity |
| Grid.FrameWidthFits | src/assets.rs:90 | the image width always fits the cell width |
| Grid.TallSpriteDoesNotFit | src/assets.rs:91 | a 2x4 image in a three-slot grid does not fit at slot 2 |
| Grid.IntendedCellsHoldImages | src/assets.rs:91 | with the intended cell height every image fits at every slot |
| Slots.KeyAt | src/assets.rs:94-97 | enumeration index `i` names the cel in frame `i % num_frames` of layer `i / num_frames`, and its rank is `i` |
| Slots.KeyAtRank | src/assets.rs:94-97 | decoding a key's rank gives back the key |
| Slots.KeyAtValid | src/assets.rs:92 | every index below `num_frames * num_layers` names a valid cel |
| Slots.KeptCels | src/assets.rs:92-98 | the kept cels are valid, pass the filter and are listed in strictly increasing layer-major order |
| Slots.KeptCelsComplete | src/assets.rs:93-96 | a valid cel is kept exactly when its layer is a group or it holds pixels |
| Slots.LayerIndexes | src/assets.rs:109-114 | the table has a key exactly for each listed cel |
| Slots.SlotOfKept | src/assets.rs:109-114 | the `p`-th kept cel is mapped to slot `num_frames + p` |
| Slots.SlotBijection | src/assets.rs:109-114 | for distinct cels, the table's keys are the kept cels and its values are exactly `num_frames ..< num_frames + kept` |
| Slots.SlotInjective | src/assets.rs:109-114 | for distinct cels, two keys of the table with the same slot are the same cel |
| Slots.SlotTaken | src/assets.rs:109-114 | for distinct cels, a slot is taken exactly when it lies in `num_frames ..< num_frames + kept` |
| Slots.RankedIsDistinct | src/assets.rs:92-98 | a strictly ranked list has no repeated cel |
| Slots.AtlasKeysAreKeptCels | src/assets.rs:92-114 | a cel is a key of `atlas_layer_indexes` exactly when it is valid and kept |
| Slots.AtlasLayerIndexesBijection | src/assets.rs:109-114 | `atlas_layer_indexes` has a key exactly for the valid kept cels; the `p`-th kept cel gets slot `num_frames + p`; no two cels share a slot |
| Slots.SlotOrderFollowsRank | src/assets.rs:109-114 | slots follow the layer-major order of the cels |
| Slots.EarlierLayerEarlierRank | src/assets.rs:92-97 | in the same frame, a cel of a layer with a smaller id is enumerated earlier |
| Slots.RankOrderIsListOrder | src/assets.rs:92-98 | in the kept list, a cel of smaller rank comes earlier |
| Slots.EarlierRankEarlierSlot | src/assets.rs:109-114 | a cel enumerated before the `q`-th kept cel has a slot before `num_frames + q` |
| Slots.EarlierLayerEarlierSlot | src/assets.rs:109-114 | the cel of an earlier layer in the same frame as the `q`-th kept cel has a slot before that cel's slot |
| Slots.AdjacentRanksAdjacentPositions | src/assets.rs:92-98 | cels of consecutive rank that are both kept sit next to each other in the kept list |
| Slots.NextFrameNextSlot | src/assets.rs:109-114 | when a layer keeps its cels in frames `f` and `f+1`, they are in consecutive slots |
| Slots.RunOfAdjacentSlots | src/assets.rs:109-114 | a run of kept frames with pairwise adjacent slots occupies consecutive slots |
| Slots.AdjacentSlotsOfFile | src/assets.rs:109-114 | in a loaded table, kept cels of adjacent frames of a layer are in adjacent slots |
| Slots.LayerRunContiguous | src/assets.rs:109-114 | a layer's cels kept over frames `from..=to` occupy the consecutive slots from the first one on |
| Asset.Checked | src/systems.rs:80 | an arithmetic error becomes a panic; a value passes through unchanged |
| Asset.Position | src/assets.rs:30-32 | the first index holding the name, or none exactly when the name is absent |
| Asset.LayerId | src/assets.rs:29-40 | the index of the first layer with the name; a panic exactly when no layer has it |
| Asset.FindTag | src/assets.rs:42-44 | the first tag with the name, or none exactly when no tag has it |
| Asset.TagNamed | src/assets.rs:41-46 | a tag in the list with the name, with no earlier tag of that name; a panic exactly when there is none |
| Asset.FrameDuration | src/assets.rs:47-49 | the frame's duration; a panic exactly when the frame is past the end |
| Asset.FrameSlot | src/assets.rs:60-61 | `atlas_indexes[frame]`; a panic past the end |
| Asset.LayerSlot | src/assets.rs:55-56 | the slot of a cel; a panic exactly when the cel has none |
| Asset.DefaultRange | src/assets.rs:69 | without filters the range is `0..num_frames` |
| Asset.TagRange | src/assets.rs:59-63 | with only a tag, the range is `from..to+1` exactly when both tag ends are frames of the animation, and a panic otherwise |
| Asset.UnknownTagPanics | src/assets.rs:41-46 | an unknown tag name panics, whatever the layer filter is |
| Asset.LayerTagRange | src/assets.rs:54-58 | with a layer and a tag, the range runs from the slot of the layer's cel in the tag's first frame to one past the slot of its cel in the tag's last frame; a missing cel panics, and so does a last slot of `2^32 - 1`, whose `+ 1` overflows |
| Asset.LayerOnlyRange | src/assets.rs:64-68 | with only a layer, the range runs from the slot of its cel in frame 0 to one past the slot of its cel in the last frame; a missing first cel panics, then `num_frames - 1` underflowing when there are no frames, then a missing last cel, then the `+ 1` overflowing past `2^32 - 1` |
| Asset.AtlasRange | src/assets.rs:50-71 | the range's ends are `u32`; an unknown tag panics first, then an unknown layer; each filter combination is stated by Asset.DefaultRange, Asset.TagRange, Asset.LayerTagRange and Asset.LayerOnlyRange |
| LayerNames.RawNames | src/assets.rs:174-177 | one name per layer, in id order |
| LayerNames.NamesAfter | src/assets.rs:178-183 | the loop leaves every layer it has not visited yet with its own name |
| LayerNames.QualifyNames | src/assets.rs:174-183 | the in-place renaming loop computes the specified names |
| LayerNames.NameSettled | src/assets.rs:178-183 | once the loop has visited a layer, its name no longer changes |
| LayerNames.QualifiedName | src/assets.rs:179-181 | a layer with a parent is named `parent's final name + "::" + own name`; a layer without one keeps its own name |
| LayerNames.NamesAreFullPaths | src/assets.rs:174-183 | every final name is the layer's full path of ancestor names joined by `::` |
| LayerNames.NestedLayerName | src/assets.rs:179-181 | layer "Hair" inside group "Woman" is named "Woman::Hair" |
| Loader.PackingOf | src/assets.rs:87-117 | the packing the loader sets up is the kept cels, their slot table and a grid of `NumRows(total)` rows with room for every slot |
| Loader.Blank | src/assets.rs:117 | the new buffer is blank in every cell |
| Loader.CopyInto | src/assets.rs:120-124 | `copy_from` succeeds exactly when the image fits in the buffer at the slot's cell origin, and then makes the image the only one in that slot and changes no other slot; otherwise it fails naming the slot |
| Loader.Overlay | src/assets.rs:139-144 | `overlay` puts the image on top of what the slot already holds and changes no other slot |
| Loader.PaintFrames | src/assets.rs:119-125 | the first loop keeps the buffer's size |
| Loader.PaintAncestors | src/assets.rs:134-146 | the parent walk keeps the buffer's size |
| Loader.PaintCel | src/assets.rs:127-147 | one step of the second loop keeps the buffer's size |
| Loader.PaintCels | src/assets.rs:126-148 | the second loop keeps the buffer's size |
| Loader.PackCells | src/assets.rs:117-148 | the packed buffer has one entry per grid cell |
| Loader.BuildWith | src/assets.rs:85-199 | loading with a given cell height succeeds exactly when packing succeeds, fails with packing's error otherwise, and publishes the packing's grid; what it publishes is stated by LoaderProperties.LoadedAsset |
| Loader.Build | src/assets.rs:91 | the loader as written uses cells one pixel higher than the sprite is wide |
| Loader.IntendedBuild | src/assets.rs:91 | the corrected loader uses cells one pixel higher than the sprite |
| Loader.Identity | src/assets.rs:197 | `atlas_indexes` maps each frame to the slot with its own number |
| Loader.PaintCelsErrPersists | src/assets.rs:133 | once a step of the second loop fails, `?` makes the whole loop fail with that error |
| Loader.PaintFramesErrPersists | src/assets.rs:124 | once a frame copy fails, `?` makes the whole loop fail with that error |
| Loader.PaintFramesInto | src/assets.rs:119-125 | the first loop on the array buffer does what its specification says, including the error it stops at |
| Loader.PaintAncestorsInto | src/assets.rs:135-146 | the `while let` walk up the parents on the array buffer does what its specification says |
| Loader.PaintCelInto | src/assets.rs:127-147 | one cel step on the array buffer does what its specification says |
| Loader.PaintCelsInto | src/assets.rs:126-148 | the second loop on the array buffer does what its specification says |
| Loader.Load | src/assets.rs:85-199 | the loader publishes exactly the specified asset, or fails with the specified error |
| LoaderProperties.PaintAncestorsOk | src/assets.rs:136-138 | the parent walk succeeds exactly when every ancestor's cel in that frame has a slot |
| LoaderProperties.PaintAncestorsEffect | src/assets.rs:139-144 | when the sprite is no taller than a cell, the walk appends the image once to the slot of every ancestor cel and leaves every other cell unchanged |
| LoaderProperties.ParentOf | src/assets.rs:135 | a cel's parent layer is a layer of the file |
| LoaderProperties.AncestorSlotsAreCelSlots | src/assets.rs:138 | images are never overlaid onto whole-frame slots |
| LoaderProperties.PaintCelEffect | src/assets.rs:127-147 | when the sprite is no taller than a cell, a cel with pixels replaces its own slot and is appended to its ancestors' slots; a cel without pixels changes nothing |
| LoaderProperties.OverlayAncestor | src/assets.rs:135-145 | a slot a cel is overlaid onto belongs to the same frame's cel of a layer with a smaller id |
| LoaderProperties.OverlaidOntoEarlierSlot | src/assets.rs:135-144 | a cel is overlaid only onto slots before its own, because ancestors have smaller layer ids |
| LoaderProperties.PaintOrderOfValid | src/assets.rs:109-114 | the loader's packing has unshared slots, and overlays go to earlier slots |
| LoaderProperties.NoOverlaysBeforeOwnSlot | src/assets.rs:126-148 | no image is overlaid onto a slot before that slot's own cel is copied in |
| LoaderProperties.PaintCelOnSlot | src/assets.rs:126-148 | when the sprite is no taller than a cell, one step of the second loop leaves a frame slot alone and extends a cel slot's contents from the cels `0..i` to the cels `0..i+1` |
| LoaderProperties.CelSlotStep | src/assets.rs:127-144 | what cel `i` copies into or overlays onto a cel slot turns the slot's contents for the cels `0..i` into those for `0..i+1`, because nothing was overlaid onto a slot before its own cel is copied |
| LoaderProperties.PaintCelsEffect | src/assets.rs:126-148 | when the sprite is no taller than a cell, after the second loop each cel slot holds its cel's own image (if it has pixels) followed by the images of its descendants' cels, in order; frame slots are untouched |
| LoaderProperties.PaintFramesEffect | src/assets.rs:119-125 | when the sprite is no taller than a cell, the first loop puts frame `s` alone into slot `s` and leaves every other cell unchanged |
| LoaderProperties.PaintFramesOk | src/assets.rs:119-125 | the first loop succeeds exactly when every frame fits at its slot |
| LoaderProperties.PaintCelOk | src/assets.rs:127-147 | a cel step succeeds exactly when the cel fits at its slot and every ancestor's cel has a slot |
| LoaderProperties.PaintCelsOk | src/assets.rs:126-148 | the second loop succeeds exactly when every cel step can succeed |
| LoaderProperties.PackCellsOk | src/assets.rs:117-148 | packing succeeds exactly when every frame and every cel with pixels fits, and every ancestor cel has a slot |
| LoaderProperties.PackCellsEffect | src/assets.rs:117-148 | when the sprite is no taller than a cell, the packed atlas: frame slots hold their frame; each kept cel's slot holds its own image and then its descendants' images; unused cells stay blank |
| LoaderProperties.ChainAreGroups | src/assets.rs:135-146 | when only group layers have children, every ancestor is a group, so its cel was kept |
| LoaderProperties.LoadSucceeds | src/assets.rs:85-199 | loading succeeds when only groups have children and the image fits the cell height |
| LoaderProperties.LoadSucceedsUnlessTall | src/assets.rs:91 | as written, loading succeeds for sprites no taller than their width plus one |
| LoaderProperties.IntendedLoadSucceeds | src/assets.rs:91 | with the intended cell height every well-formed sprite loads |
| LoaderProperties.TallSpriteLoadFails | src/assets.rs:91 | as written, a 2x4 sprite with three frames fails `copy_from` at slot 2; with the intended cell height it loads |
| LoaderProperties.TallSpriteSpills | src/assets.rs:91 | as written, a 2x5 sprite with one frame loads, yet it is taller than a cell, so frame 0 drawn at slot 0 reaches into the cell of slot 2 below it |
| LoaderProperties.IntendedAtlasContents | src/assets.rs:91 | with the intended cell height every well-formed sprite whose parents are groups loads, its images fit their cells, and the atlas holds each frame in its slot and each kept cel's image followed by its descendants' images |
| LoaderProperties.LoadedAsset | src/assets.rs:174-199 | the published asset has full-path layer names, the file's tags and durations, identity frame slots, a slot table keyed by the kept cels with distinct slots in `num_frames ..< total`, and, when the sprite is no taller than a cell, the packed atlas |
| LoaderProperties.LoadedLayerTagRange | src/assets.rs:54-58 | for a loaded asset, a layer and a tag whose frames all keep that layer's cel give a range whose length is the tag's frame count |
| Playback.FromTag | src/systems.rs:47 | a tag played in reverse runs Backward, a ping-pong tag runs PingPong, any other tag runs Forward |
| Playback.Step | src/systems.rs:78-108 | a step keeps slot numbers `u32`; only PingPong changes `pong` |
| Playback.DurationAt | src/systems.rs:74-75 | the current frame's duration is the one at offset `index - start`; a panic outside `start ..< start + frames` |
| Playback.Settle | src/systems.rs:76-111 | the loop stops at a slot whose duration exceeds the leftover time, and the leftover is at most the elapsed time |
| Playback.DirectionOf | src/systems.rs:45-48 | the tag's direction, or the default without a tag; a panic exactly when the tag is unknown |
| Playback.StartOf | src/systems.rs:44-52 | a start exists only when `atlas_range` succeeds, and its slots are `u32`; its full behaviour is stated by PlaybackProperties.StartPosition |
| Playback.Animation.constructor | src/components.rs:21-26 | `#[derive(Default)]`: the default animation is Forward, slot 0, an empty range, not ponging, no time elapsed (the fields are those the systems use, see Left out) |
| Playback.StartAnimation | src/systems.rs:42-58 | without an asset nothing changes; otherwise the start state is set, the elapsed time is reset, `pong` is kept and the sprite shows the start slot |
| Playback.Animate | src/systems.rs:71-115 | without an asset nothing changes; otherwise the cursor settles against the old elapsed time, the leftover plus `delta` is stored, and the sprite shows the new slot |
| PlaybackProperties.ForwardStep | src/systems.rs:79-85 | Forward moves to the next slot, or wraps to the start |
| PlaybackProperties.BackwardStep | src/systems.rs:86-92 | from every slot above 0, Backward moves to the previous slot, or wraps to the last one at the range start (slot 0 is UnderflowAtSlotZero) |
| PlaybackProperties.PingPongStep | src/systems.rs:93-107 | from every slot where the source does not panic (above 0, or at 0 moving forward with a next slot in the range), PingPong moves outward until an end, turns back there and flips `pong` |
| PlaybackProperties.StepStaysInRange | src/systems.rs:78-108 | on a sound range a step never panics, stays in the range and moves whenever the range has two slots or more |
| PlaybackProperties.UnderflowAtSlotZero | src/systems.rs:87 | Backward, or PingPong on its way back, panics at slot 0 |
| PlaybackProperties.SettleStaysInRange | src/systems.rs:76-111 | on a sound range that has a duration for every slot, settling never panics and stays in the range |
| PlaybackProperties.Visit | src/systems.rs:78-108 | the slots visited by `n` steps start at the current slot |
| PlaybackProperties.UnitDurationsFollowVisit | src/systems.rs:76-111 | with 1 ms frames, `n` ms settle at the `n`-th visited slot with nothing left over |
| PlaybackProperties.ForwardWraps | src/systems.rs:79-85 | Forward on slots 2..6 from 2 visits 2,3,4,5,2 |
| PlaybackProperties.BackwardWraps | src/systems.rs:86-92 | Backward on slots 2..6 from 5 visits 5,4,3,2,5 |
| PlaybackProperties.PingPongFromZeroPanics | src/systems.rs:101 | PingPong on slots 0..4 visits 0,1,2,3,2,1,0, then underflows |
| PlaybackProperties.PingPongAnimationPanics | src/systems.rs:71-115 | with 1 ms frames, a ping-pong animation over slots 0..4 panics after 7 ms |
| PlaybackProperties.SingleSlotPingPongPanics | src/systems.rs:95-97 | a one-slot PingPong range turns back to the slot before it, which has no duration, so the lookup panics |
| PlaybackProperties.IntendedStep | src/systems.rs:78-108 | the corrected step never leaves the range |
| PlaybackProperties.IntendedStepAgrees | src/systems.rs:78-108 | on sound ranges the corrected step is the step as written |
| PlaybackProperties.IntendedStepMoves | src/systems.rs:78-108 | the corrected step moves whenever the range has two slots or more |
| PlaybackProperties.IntendedSettle | src/systems.rs:76-111 | the corrected loop stays in the range and stops at a slot whose duration exceeds the leftover time |
| PlaybackProperties.IntendedVisit | src/systems.rs:78-108 | every slot the corrected stepper visits is in the range |
| PlaybackProperties.IntendedPingPongFromZero | src/systems.rs:93-107 | the corrected PingPong on slots 0..4 visits 0,1,2,3,2,1,0,1,2 |
| PlaybackProperties.StartPosition | src/systems.rs:44-52 | starting fails exactly when `atlas_range` panics, with the same error; otherwise it keeps the range, takes the tag's direction (or the default), and starts at the first slot, or at the last one for Backward, which lies in the range when the range is not empty |
| Coalesce.Decision | src/utils.rs:4-5 | a deciding argument either escapes or yields the payload of its `Some` |
| Coalesce.Expand | src/utils.rs:1-9 | the first argument that is `Some` or escapes decides the result, after every earlier argument was evaluated and found `None`; when there is none, the last argument decides it, after all were evaluated |
| Coalesce.TrailingCommaIgnored | src/utils.rs:10 | a trailing comma makes no difference |
| Coalesce.SingleArgument | src/utils.rs:2 | `coalesce!(a)` is `a` |
| Coalesce.FirstSomeWins | src/utils.rs:3-5 | a leading `Some(v)` yields `v`, and nothing after it is evaluated |
| Coalesce.NoneUnrolls | src/utils.rs:6-8 | a leading `None` defers to the rest, after one more evaluation |
| Coalesce.LaterArgumentsIgnored | src/utils.rs:3-9 | arguments after the deciding one, and the fallback, do not affect the result |
| Coalesce.OrContinue | src/ui/systems.rs:63 | `coalesce!(x, continue)` yields the payload of `x`, or skips the iteration when `x` is `None` |

## Left out

- The Bevy plumbing is not modelled:
  - asset handles, `Assets` storage, queries and change detection;
  - the `Time` resource (its `delta` is a parameter);
  - `fixup_texture_atlas`, the plugins, `src/lib.rs` and `src/loaders.rs`;
  - the UI systems, apart from the `coalesce!` use they make.
- Decoding the Aseprite bytes (`AsepriteFile::read`) is not modelled. The model starts from the decoded document.
- Pixels, alpha blending and clipping of `overlay` are not modelled. Images are identified by their origin. A cell records which images were drawn into it and in what order.
- Creating the texture and the `TextureAtlas::from_grid` regions (src/assets.rs:150-173) is not modelled, nor are the labelled sub-assets. The asset records the grid layout and the packed cells instead.
- Grid.NumRows: the source takes the `f32` square root and truncates it. The model uses the exact integer square root. The two can differ from about 2^24 slots on, where the `f32` square root of a count just below a perfect square rounds up to the whole number: with 16785408 = 4097*4097 - 1 slots the square root 4096.99988 rounds to 4097, so the source gets 4098 rows and the model 4097.
- The `path` field of the asset, the panic messages and `error!` logging are not modelled. A panic is an error value naming its cause.
- `AnimationDirection` and its conversion from the file's tag direction are not part of the files modelled here. The model assumes:
  - three directions, Forward, Backward and PingPong;
  - the default is Forward;
  - a Reverse tag maps to Backward.
- Playback.Animate, Playback.Settle, PlaybackProperties.SettleStaysInRange, PlaybackProperties.UnitDurationsFollowVisit, PlaybackProperties.SingleSlotPingPongPanics and PlaybackProperties.IntendedSettle require every frame duration to be positive. The source loops forever only when every slot its stepping cycles through lasts 0 ms; a single 0 ms frame is stepped past. The model does not cover files with any 0 ms frame, including those the source plays without hanging.
- Playback.Animate: `time_elapsed += delta` cannot overflow `Duration` in the model. Durations are unbounded naturals in milliseconds, not seconds plus nanoseconds.
- Slots.AtlasLayerIndexes: the `u32` products `num_frames * num_layers` and `i as u32 + num_frames` are computed without wrap-around. So are the slot count `non_empty_cels.len() as u32 + num_frames` (src/assets.rs:116, in Loader.PackingOf), the buffer size `num_rows * cel_width` by `num_rows * cel_height` (src/assets.rs:117, in Grid.Layout) and the cell origins `index % num_rows * cel_width` and `index / num_rows * cel_height` (src/assets.rs:122-123 and 131-132, in Grid.OriginX and Grid.OriginY); an overflow there is neither a panic nor a wrap-around in the model. LoaderProperties.LoadedAsset proves the slots are within `u32` only when `num_frames + num_frames * num_layers < 2^32`.
- The asefile crate's `usize`/`u32` conversions of frame and layer ids are not modelled. Ids are naturals.
- Document.WellFormed requires every parent id to be smaller than its child's id. The asefile crate assigns ids in file order, and a group precedes its children there. Without this assumption the source's `while let` walk could loop forever.
- Playback.Animation: the component declared in src/components.rs:21-26 has the fields `frame_rate_multiplier`, `time_elapsed` and `index`, but the systems read and write `direction`, `current_index`, `index_range`, `pong` and `time_elapsed`. The model's class has the fields the systems use; `frame_rate_multiplier` is never read by them and is not modelled.
- LoaderProperties.PaintFramesEffect, LoaderProperties.PaintAncestorsEffect, LoaderProperties.PaintCelEffect, LoaderProperties.PaintCelOnSlot, LoaderProperties.PaintCelsEffect and LoaderProperties.PackCellsEffect: what each cell holds is claimed only when the sprite is no taller than a cell (Loader.CellsHoldImages). A taller sprite that still loads (LoaderProperties.TallSpriteSpills) also covers the top rows of the cell `num_rows` slots further on, which the cell model does not record.
- LoaderProperties.LoadedAsset: the atlas contents are stated only when the sprite is no taller than a cell, for the same reason; the other conjuncts hold for every sprite that loads.
- Loader.CopyInto and Loader.Overlay record an image only in the cell at its origin. Pixels that fall below that cell, into the cell of the slot `num_rows` further on, are not recorded.
- The state a panicking system leaves behind is not specified. Playback.StartAnimation and Playback.Animate only report the panic.

## Findings

| source | as written | input that shows it | evidently intended | confidence | as-written member | corrected member |
|---|---|---|---|---|---|---|
| src/systems.rs:87, src/systems.rs:101 | `current_index - 1` on `u32` is evaluated before it is compared with the range start | a ping-pong tag over frames 0-3 of a sprite gives the range `0..4`; its animation visits 0,1,2,3,2,1,0 and then computes `0 - 1`, which panics in a debug build; so does Backward at slot 0 | turn around or wrap at the start of the range without going below it, as `current_index <= start` would | high (not executed) | PlaybackProperties.PingPongFromZeroPanics | PlaybackProperties.IntendedPingPongFromZero |
| src/systems.rs:95-97 | PingPong at the end of the range moves to `current_index - 1` unconditionally | a one-slot PingPong range `s..s+1` turns to slot `s - 1`, outside the range; its duration lookup (line 110) then panics | stay on the single slot | high (not executed) | PlaybackProperties.SingleSlotPingPongPanics | PlaybackProperties.IntendedStep |
| src/assets.rs:91 | `cel_height` is computed from `asefile.width()` | a 2x4 sprite with three frames gets a 2x2 grid of 3x3 cells; `copy_from` of the 4-pixel-high frame at slot 2 (y = 3) does not fit the 6-pixel-high buffer, and loading fails | `asefile.height() + padding.y` | high (not executed) | LoaderProperties.TallSpriteLoadFails | LoaderProperties.IntendedLoadSucceeds |
| src/assets.rs:91 | `cel_height` is computed from `asefile.width()`, so a sprite taller than its width plus one is drawn past the bottom of its cell | a 2x5 sprite with one frame gets a 2x2 grid of 3x3 cells; frame 0 (5 pixels high) fits the 6-pixel-high buffer at slot 0 and loads, but its last two rows land in the cell of slot 2 | `asefile.height() + padding.y`, so every image stays in its own cell | high (not executed) | LoaderProperties.TallSpriteSpills | LoaderProperties.IntendedAtlasContents |
