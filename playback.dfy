/** The playback state machine (src/systems.rs): `fixup_aseprite_animation`
    starts an animation on the range its filter selects, and
    `animate_aseprite` advances it tick by tick, consuming frame durations
    and stepping the current slot Forward, Backward or PingPong. Slot
    arithmetic is `u32`: an overflow or underflow panics, and a panic is an
    `Err` here. Durations are whole milliseconds. */
module Playback {
  import opened Wrappers
  import Document
  import opened Asset

  /** `AnimationDirection`. */
  datatype Direction = Forward | Backward | PingPong

  /** `AnimationDirection::default()`. */
  const DefaultDirection: Direction := Forward

  /** `tag.animation_direction().into()`: a tag played in reverse runs
      Backward. */
  function FromTag(d: Document.TagDirection): (r: Direction)
    ensures d == Document.TagDirection.Reverse <==> r == Backward
    ensures d == Document.TagDirection.PingPong <==> r == PingPong
  {
    match d
    case Forward => Forward
    case Reverse => Backward
    case PingPong => PingPong
  }

  /** Where the stepper is: the current slot and whether a ping-pong is on
      its way back. */
  datatype Cursor = Cursor(index: int, pong: bool)

  /** One step of the `match` at lines 78-108, with the `u32` arithmetic
      evaluated in the order the source evaluates it. */
  function Step(dir: Direction, range: Range, c: Cursor): (r: Result<Cursor, Panic>)
    requires IsU32(c.index) && IsU32(range.start) && IsU32(range.end)
    ensures r.Ok? ==> IsU32(r.value.index)
    ensures dir != PingPong && r.Ok? ==> r.value.pong == c.pong
  {
    match dir
    case Forward =>
      var next :- Checked(AddU32(c.index, 1));
      if next >= range.end then Ok(Cursor(range.start, c.pong)) else Ok(Cursor(next, c.pong))
    case Backward =>
      var prev :- Checked(SubU32(c.index, 1));
      if prev < range.start then
        var last :- Checked(SubU32(range.end, 1));
        Ok(Cursor(last, c.pong))
      else Ok(Cursor(prev, c.pong))
    case PingPong =>
      if !c.pong then
        var next :- Checked(AddU32(c.index, 1));
        if next >= range.end then
          var prev :- Checked(SubU32(c.index, 1));
          Ok(Cursor(prev, true))
        else Ok(Cursor(next, false))
      else
        var prev :- Checked(SubU32(c.index, 1));
        if prev < range.start then
          var next :- Checked(AddU32(c.index, 1));
          Ok(Cursor(next, false))
        else Ok(Cursor(prev, true))
  }

  /** `aseprite.frame_duration((current_index - index_range.start) as usize)`:
      the duration is looked up by the offset into the range, not by the
      source frame number. */
  function DurationAt(a: Aseprite, range: Range, index: int): (r: Result<nat, Panic>)
    requires IsU32(index) && IsU32(range.start)
    ensures r.Ok? <==> range.start <= index < range.start + |a.frameDurations|
    ensures r.Ok? ==> r.value == a.frameDurations[index - range.start]
  {
    var offset :- Checked(SubU32(index, range.start));
    FrameDuration(a, offset)
  }

  /** Every frame lasts at least a millisecond; otherwise the loop at line 76
      never ends. */
  predicate PositiveDurations(a: Aseprite)
  {
    forall i :: 0 <= i < |a.frameDurations| ==> a.frameDurations[i] > 0
  }

  /** The `while` loop at lines 76-111: while the elapsed time covers the
      current frame's duration, consume it and step. The result is the
      cursor it stops at and the time left over. */
  function Settle(a: Aseprite, dir: Direction, range: Range, c: Cursor, elapsed: nat): (r: Result<(Cursor, nat), Panic>)
    requires PositiveDurations(a)
    requires IsU32(c.index) && IsU32(range.start) && IsU32(range.end)
    ensures r.Ok? ==> IsU32(r.value.0.index) && r.value.1 <= elapsed
    ensures r.Ok? ==> var d := DurationAt(a, range, r.value.0.index); d.Ok? && r.value.1 < d.value
    decreases elapsed
  {
    var dur :- DurationAt(a, range, c.index);
    if elapsed < dur then Ok((c, elapsed))
    else
      var next :- Step(dir, range, c);
      Settle(a, dir, range, next, elapsed - dur)
  }

  /** The entity's `AsepriteAtlas` filter: an optional layer and tag name. */
  datatype Filter = Filter(layer: Option<string>, tag: Option<string>)

  /** What starting an animation sets. */
  datatype Start = Start(direction: Direction, range: Range, index: int)

  /** The direction of the filter's tag, or the default without one. */
  function DirectionOf(a: Aseprite, tag: Option<string>): (r: Result<Direction, Panic>)
    ensures tag.None? ==> r == Ok(DefaultDirection)
    ensures tag.Some? ==> (r.Ok? <==> TagNamed(a, tag.value).Ok?)
    ensures tag.Some? && r.Ok? ==> r.value == FromTag(TagNamed(a, tag.value).value.direction)
  {
    var t :- OptionalTag(a, tag);
    Ok(if t.Some? then FromTag(t.value.direction) else DefaultDirection)
  }

  /** Lines 44-52: resolve the range, pick the direction, and start at the
      first slot, or at the last for Backward. */
  function StartOf(a: Aseprite, f: Filter): (r: Result<Start, Panic>)
    requires U32Fields(a)
    ensures r.Ok? ==> AtlasRange(a, f.layer, f.tag).Ok?
    ensures r.Ok? ==> IsU32(r.value.index) && IsU32(r.value.range.start) && IsU32(r.value.range.end)
  {
    var range :- AtlasRange(a, f.layer, f.tag);
    var dir :- DirectionOf(a, f.tag);
    var index :- if dir == Backward then Checked(SubU32(range.end, 1)) else Ok(range.start);
    Ok(Start(dir, range, index))
  }

  /** `AsepriteAnimation`, with the fields the systems use. */
  class Animation {
    var direction: Direction
    var currentIndex: int
    var indexRange: Range
    var pong: bool
    var timeElapsed: nat

    /** `AsepriteAnimation::default()` */
    constructor ()
      ensures direction == DefaultDirection && currentIndex == 0 && indexRange == Range(0, 0)
      ensures !pong && timeElapsed == 0
    {
      direction := DefaultDirection;
      currentIndex := 0;
      indexRange := Range(0, 0);
      pong := false;
      timeElapsed := 0;
    }

    /** The fields that hold `u32` values do. */
    predicate Valid()
      reads this
    {
      IsU32(currentIndex) && IsU32(indexRange.start) && IsU32(indexRange.end)
    }
  }

  /** `TextureAtlasSprite`: the atlas slot drawn. */
  class Sprite {
    var index: int

    constructor ()
      ensures index == 0
    {
      index := 0;
    }
  }

  /** `fixup_aseprite_animation` for one entity (lines 42-58): without a
      loaded asset nothing changes; otherwise direction, range and current
      slot are set, the elapsed time is reset and the sprite shows the
      current slot. `pong` is left as it was. */
  method StartAnimation(asset: Option<Aseprite>, f: Filter, anim: Animation, sprite: Sprite)
    returns (panic: Option<Panic>)
    requires asset.Some? ==> U32Fields(asset.value)
    modifies anim, sprite
    ensures asset.None? ==> panic.None? && unchanged(anim, sprite)
    ensures asset.Some? && panic.Some? ==> StartOf(asset.value, f) == Err(panic.value)
    ensures asset.Some? && panic.None? ==>
      && StartOf(asset.value, f).Ok?
      && var s := StartOf(asset.value, f).value;
      && anim.direction == s.direction
      && anim.currentIndex == s.index
      && anim.indexRange == s.range
      && anim.timeElapsed == 0
      && anim.pong == old(anim.pong)
      && sprite.index == s.index
      && anim.Valid()
  {
    if asset.None? {
      return None;
    }
    var a := asset.value;
    var rangeOrPanic := AtlasRange(a, f.layer, f.tag);
    if rangeOrPanic.Err? {
      return Some(rangeOrPanic.error);
    }
    var range := rangeOrPanic.value;
    var dirOrPanic := DirectionOf(a, f.tag);
    if dirOrPanic.Err? {
      return Some(dirOrPanic.error);
    }
    anim.direction := dirOrPanic.value;
    var index: int;
    match anim.direction {
      case Forward =>
        index := range.start;
      case PingPong =>
        index := range.start;
      case Backward =>
        var last := SubU32(range.end, 1);
        if last.Err? {
          return Some(ArithmeticOverflow(last.error));
        }
        index := last.value;
    }
    anim.currentIndex := index;
    anim.indexRange := range;
    anim.timeElapsed := 0;
    sprite.index := anim.currentIndex;
    return None;
  }

  /** `animate_aseprite` for one entity (lines 71-115): settle the cursor
      against the elapsed time, store it, then add the tick's `delta`, which
      only counts from the next tick on. Without a loaded asset nothing
      changes. */
  method Animate(asset: Option<Aseprite>, delta: nat, anim: Animation, sprite: Sprite)
    returns (panic: Option<Panic>)
    requires anim.Valid()
    requires asset.Some? ==> PositiveDurations(asset.value)
    modifies anim, sprite
    ensures asset.None? ==> panic.None? && unchanged(anim, sprite)
    ensures asset.Some? && panic.Some? ==>
      Settle(asset.value, old(anim.direction), old(anim.indexRange),
             Cursor(old(anim.currentIndex), old(anim.pong)), old(anim.timeElapsed)) == Err(panic.value)
    ensures asset.Some? && panic.None? ==>
      && var r := Settle(asset.value, old(anim.direction), old(anim.indexRange),
                         Cursor(old(anim.currentIndex), old(anim.pong)), old(anim.timeElapsed));
      && r.Ok?
      && anim.currentIndex == r.value.0.index
      && anim.pong == r.value.0.pong
      && anim.timeElapsed == r.value.1 + delta
      && sprite.index == anim.currentIndex
      && anim.direction == old(anim.direction)
      && anim.indexRange == old(anim.indexRange)
      && anim.Valid()
  {
    if asset.None? {
      return None;
    }
    var a := asset.value;
    ghost var goal := Settle(a, anim.direction, anim.indexRange, Cursor(anim.currentIndex, anim.pong), anim.timeElapsed);
    var current := anim.currentIndex;
    var durOrPanic := DurationAt(a, anim.indexRange, current);
    if durOrPanic.Err? {
      return Some(durOrPanic.error);
    }
    var dur := durOrPanic.value;
    while anim.timeElapsed >= dur
      invariant anim.Valid() && IsU32(current)
      invariant anim.direction == old(anim.direction) && anim.indexRange == old(anim.indexRange)
      invariant anim.currentIndex == old(anim.currentIndex)
      invariant DurationAt(a, anim.indexRange, current) == Ok(dur) && dur > 0
      invariant Settle(a, anim.direction, anim.indexRange, Cursor(current, anim.pong), anim.timeElapsed) == goal
      decreases anim.timeElapsed
    {
      anim.timeElapsed := anim.timeElapsed - dur;
      var stepOrPanic := Step(anim.direction, anim.indexRange, Cursor(current, anim.pong));
      if stepOrPanic.Err? {
        return Some(stepOrPanic.error);
      }
      current := stepOrPanic.value.index;
      anim.pong := stepOrPanic.value.pong;
      durOrPanic := DurationAt(a, anim.indexRange, current);
      if durOrPanic.Err? {
        return Some(durOrPanic.error);
      }
      dur := durOrPanic.value;
    }
    anim.currentIndex := current;
    anim.timeElapsed := anim.timeElapsed + delta;
    sprite.index := current;
    return None;
  }
}
