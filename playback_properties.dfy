/** What the playback stepper promises, and where the code as written falls
    short of it: the slot stays inside the range, the loop stops with less
    time left than the current frame lasts, and the three directions visit
    slots in the expected order, except that `current_index - 1` underflows
    at slot 0 and a one-slot ping-pong steps outside its range. */
module PlaybackProperties {
  import opened Wrappers
  import opened Asset
  import opened Playback

  predicate InRange(range: Range, i: int)
  {
    range.start <= i < range.end
  }

  /** The ranges on which the stepper as written never panics: a non-empty
      `u32` range that, when stepping backward, does not start at slot 0,
      and holds at least two slots for ping-pong. */
  predicate Sound(dir: Direction, range: Range)
  {
    && 0 <= range.start < range.end < U32_LIMIT
    && (dir == Backward ==> range.start >= 1)
    && (dir == PingPong ==> range.start >= 1 && range.end - range.start >= 2)
  }

  /** Forward: the next slot, wrapping to the first after the last. */
  lemma ForwardStep(range: Range, c: Cursor)
    requires 0 <= range.start && range.end < U32_LIMIT && InRange(range, c.index)
    ensures Step(Forward, range, c)
         == Ok(Cursor(if c.index + 1 < range.end then c.index + 1 else range.start, c.pong))
  {
  }

  /** Backward: the previous slot, wrapping to the last before the first,
      from every slot but slot 0 (where `current_index - 1` underflows). */
  lemma BackwardStep(range: Range, c: Cursor)
    requires 0 <= range.start && range.end < U32_LIMIT && InRange(range, c.index)
    requires c.index >= 1
    ensures Step(Backward, range, c)
         == Ok(Cursor(if c.index - 1 >= range.start then c.index - 1 else range.end - 1, c.pong))
  {
  }

  /** PingPong: forward until the last slot, then back until the first, each
      turn taking the flag with it; from every cursor that does not compute
      `0 - 1`, which is any slot above 0, and slot 0 on the way out when a
      slot follows it. */
  lemma PingPongStep(range: Range, c: Cursor)
    requires 0 <= range.start && range.end < U32_LIMIT && InRange(range, c.index)
    requires c.index >= 1 || (!c.pong && c.index + 1 < range.end)
    ensures Step(PingPong, range, c)
         == Ok(if !c.pong then
                 (if c.index + 1 < range.end then Cursor(c.index + 1, false) else Cursor(c.index - 1, true))
               else
                 (if c.index > range.start then Cursor(c.index - 1, true) else Cursor(c.index + 1, false)))
  {
  }

  /** On a sound range, a step never panics, stays inside the range, and
      never stays put when the range holds two slots or more. */
  lemma StepStaysInRange(dir: Direction, range: Range, c: Cursor)
    requires Sound(dir, range) && InRange(range, c.index)
    ensures Step(dir, range, c).Ok?
    ensures InRange(range, Step(dir, range, c).value.index)
    ensures range.end - range.start >= 2 ==> Step(dir, range, c).value.index != c.index
  {
  }

  /** Stepping backward from slot 0, or ping-ponging back to it, computes
      `0 - 1` in `u32` and panics (src/systems.rs:87 and 101). */
  lemma UnderflowAtSlotZero(range: Range, pong: bool)
    requires IsU32(range.start) && IsU32(range.end)
    ensures Step(Backward, range, Cursor(0, pong)) == Err(ArithmeticOverflow(SubUnderflow))
    ensures Step(PingPong, range, Cursor(0, true)) == Err(ArithmeticOverflow(SubUnderflow))
  {
  }

  /** The loop on a sound range whose every offset has a duration never
      panics and stops inside the range. */
  lemma {:induction false} SettleStaysInRange(a: Aseprite, dir: Direction, range: Range, c: Cursor, elapsed: nat)
    requires PositiveDurations(a) && Sound(dir, range) && InRange(range, c.index)
    requires range.end - range.start <= |a.frameDurations|
    ensures Settle(a, dir, range, c, elapsed).Ok?
    ensures InRange(range, Settle(a, dir, range, c, elapsed).value.0.index)
    decreases elapsed
  {
    var dur := DurationAt(a, range, c.index).value;
    if elapsed >= dur {
      StepStaysInRange(dir, range, c);
      SettleStaysInRange(a, dir, range, Step(dir, range, c).value, elapsed - dur);
    }
  }

  /** The slots visited by `n` steps from `c`, `c` included. */
  function Visit(dir: Direction, range: Range, c: Cursor, n: nat): (r: Result<seq<int>, Panic>)
    requires IsU32(c.index) && IsU32(range.start) && IsU32(range.end)
    ensures r.Ok? ==> |r.value| == n + 1 && r.value[0] == c.index
    decreases n
  {
    if n == 0 then Ok([c.index])
    else
      var next :- Step(dir, range, c);
      var rest :- Visit(dir, range, next, n - 1);
      Ok([c.index] + rest)
  }

  /** With frames of one millisecond each, `n` elapsed milliseconds take the
      stepper to the `n`-th visited slot with nothing left over. */
  lemma {:induction false} UnitDurationsFollowVisit(a: Aseprite, dir: Direction, range: Range, c: Cursor, n: nat)
    requires forall i :: 0 <= i < |a.frameDurations| ==> a.frameDurations[i] == 1
    requires IsU32(c.index) && IsU32(range.start) && IsU32(range.end)
    requires Visit(dir, range, c, n).Ok?
    requires forall k :: 0 <= k <= n ==>
      range.start <= Visit(dir, range, c, n).value[k] < range.start + |a.frameDurations|
    ensures PositiveDurations(a)
    ensures Settle(a, dir, range, c, n).Ok?
    ensures Settle(a, dir, range, c, n).value.0.index == Visit(dir, range, c, n).value[n]
    ensures Settle(a, dir, range, c, n).value.1 == 0
    decreases n
  {
    if n > 0 {
      var next := Step(dir, range, c).value;
      var rest := Visit(dir, range, next, n - 1).value;
      assert Visit(dir, range, c, n).value == [c.index] + rest;
      forall k | 0 <= k <= n - 1
        ensures range.start <= rest[k] < range.start + |a.frameDurations|
      {
        assert rest[k] == Visit(dir, range, c, n).value[k + 1];
      }
      UnitDurationsFollowVisit(a, dir, range, next, n - 1);
      assert range.start <= c.index < range.start + |a.frameDurations|;
    }
  }

  /** Forward on slots `2..6` runs 2, 3, 4, 5 and wraps to 2. */
  lemma ForwardWraps()
    ensures Visit(Forward, Range(2, 6), Cursor(2, false), 4) == Ok([2, 3, 4, 5, 2])
  {
    var r := Range(2, 6);
    assert Step(Forward, r, Cursor(2, false)) == Ok(Cursor(3, false));
    assert Step(Forward, r, Cursor(3, false)) == Ok(Cursor(4, false));
    assert Step(Forward, r, Cursor(4, false)) == Ok(Cursor(5, false));
    assert Step(Forward, r, Cursor(5, false)) == Ok(Cursor(2, false));
    assert Visit(Forward, r, Cursor(2, false), 0).Ok? && Visit(Forward, r, Cursor(2, false), 0).value == [2];
    assert Visit(Forward, r, Cursor(5, false), 1).Ok? && Visit(Forward, r, Cursor(5, false), 1).value == [5, 2];
    assert Visit(Forward, r, Cursor(4, false), 2).Ok? && Visit(Forward, r, Cursor(4, false), 2).value == [4, 5, 2];
    assert Visit(Forward, r, Cursor(3, false), 3).Ok? && Visit(Forward, r, Cursor(3, false), 3).value == [3, 4, 5, 2];
    assert Visit(Forward, r, Cursor(2, false), 4).Ok? && Visit(Forward, r, Cursor(2, false), 4).value == [2, 3, 4, 5, 2];
  }

  /** Backward on slots `2..6` starts at 5, runs down to 2 and wraps to 5. */
  lemma BackwardWraps()
    ensures Visit(Backward, Range(2, 6), Cursor(5, false), 4) == Ok([5, 4, 3, 2, 5])
  {
    var r := Range(2, 6);
    assert Step(Backward, r, Cursor(5, false)) == Ok(Cursor(4, false));
    assert Step(Backward, r, Cursor(4, false)) == Ok(Cursor(3, false));
    assert Step(Backward, r, Cursor(3, false)) == Ok(Cursor(2, false));
    assert Step(Backward, r, Cursor(2, false)) == Ok(Cursor(5, false));
    assert Visit(Backward, r, Cursor(5, false), 0).Ok? && Visit(Backward, r, Cursor(5, false), 0).value == [5];
    assert Visit(Backward, r, Cursor(2, false), 1).Ok? && Visit(Backward, r, Cursor(2, false), 1).value == [2, 5];
    assert Visit(Backward, r, Cursor(3, false), 2).Ok? && Visit(Backward, r, Cursor(3, false), 2).value == [3, 2, 5];
    assert Visit(Backward, r, Cursor(4, false), 3).Ok? && Visit(Backward, r, Cursor(4, false), 3).value == [4, 3, 2, 5];
    assert Visit(Backward, r, Cursor(5, false), 4).Ok? && Visit(Backward, r, Cursor(5, false), 4).value == [5, 4, 3, 2, 5];
  }

  /** PingPong on slots `0..4` as written: 0, 1, 2, 3, 2, 1, 0 without
      repeating an end, and then the step back from 0 underflows. */
  lemma PingPongFromZeroPanics()
    ensures Visit(PingPong, Range(0, 4), Cursor(0, false), 6) == Ok([0, 1, 2, 3, 2, 1, 0])
    ensures Visit(PingPong, Range(0, 4), Cursor(0, false), 7) == Err(ArithmeticOverflow(SubUnderflow))
  {
    var r := Range(0, 4);
    assert Step(PingPong, r, Cursor(0, false)) == Ok(Cursor(1, false));
    assert Step(PingPong, r, Cursor(1, false)) == Ok(Cursor(2, false));
    assert Step(PingPong, r, Cursor(2, false)) == Ok(Cursor(3, false));
    assert Step(PingPong, r, Cursor(3, false)) == Ok(Cursor(2, true));
    assert Step(PingPong, r, Cursor(2, true)) == Ok(Cursor(1, true));
    assert Step(PingPong, r, Cursor(1, true)) == Ok(Cursor(0, true));
    assert Step(PingPong, r, Cursor(0, true)) == Err(ArithmeticOverflow(SubUnderflow));
    assert Visit(PingPong, r, Cursor(0, true), 0).Ok? && Visit(PingPong, r, Cursor(0, true), 0).value == [0];
    assert Visit(PingPong, r, Cursor(0, true), 1) == Err(ArithmeticOverflow(SubUnderflow));
    assert Visit(PingPong, r, Cursor(1, true), 1).Ok? && Visit(PingPong, r, Cursor(1, true), 1).value == [1, 0];
    assert Visit(PingPong, r, Cursor(1, true), 2) == Err(ArithmeticOverflow(SubUnderflow));
    assert Visit(PingPong, r, Cursor(2, true), 2).Ok? && Visit(PingPong, r, Cursor(2, true), 2).value == [2, 1, 0];
    assert Visit(PingPong, r, Cursor(2, true), 3) == Err(ArithmeticOverflow(SubUnderflow));
    assert Visit(PingPong, r, Cursor(3, false), 3).Ok? && Visit(PingPong, r, Cursor(3, false), 3).value == [3, 2, 1, 0];
    assert Visit(PingPong, r, Cursor(3, false), 4) == Err(ArithmeticOverflow(SubUnderflow));
    assert Visit(PingPong, r, Cursor(2, false), 4).Ok? && Visit(PingPong, r, Cursor(2, false), 4).value == [2, 3, 2, 1, 0];
    assert Visit(PingPong, r, Cursor(2, false), 5) == Err(ArithmeticOverflow(SubUnderflow));
    assert Visit(PingPong, r, Cursor(1, false), 5).Ok? && Visit(PingPong, r, Cursor(1, false), 5).value == [1, 2, 3, 2, 1, 0];
    assert Visit(PingPong, r, Cursor(1, false), 6) == Err(ArithmeticOverflow(SubUnderflow));
    assert Visit(PingPong, r, Cursor(0, false), 6).Ok? && Visit(PingPong, r, Cursor(0, false), 6).value == [0, 1, 2, 3, 2, 1, 0];
  }

  /** A sprite whose four frames last a millisecond each, ping-ponged over
      slots `0..4`: after six milliseconds it is back at slot 0, and the
      seventh makes the tick panic. */
  lemma PingPongAnimationPanics(a: Aseprite)
    requires a.frameDurations == [1, 1, 1, 1]
    ensures PositiveDurations(a)
    ensures Settle(a, PingPong, Range(0, 4), Cursor(0, false), 6) == Ok((Cursor(0, true), 0))
    ensures Settle(a, PingPong, Range(0, 4), Cursor(0, false), 7) == Err(ArithmeticOverflow(SubUnderflow))
  {
    var r := Range(0, 4);
    assert Settle(a, PingPong, r, Cursor(0, true), 1) == Err(ArithmeticOverflow(SubUnderflow));
    assert Settle(a, PingPong, r, Cursor(0, true), 0) == Ok((Cursor(0, true), 0));
    assert Settle(a, PingPong, r, Cursor(1, true), 1) == Ok((Cursor(0, true), 0));
    assert Settle(a, PingPong, r, Cursor(1, true), 2) == Err(ArithmeticOverflow(SubUnderflow));
    assert Settle(a, PingPong, r, Cursor(2, true), 2) == Ok((Cursor(0, true), 0));
    assert Settle(a, PingPong, r, Cursor(2, true), 3) == Err(ArithmeticOverflow(SubUnderflow));
    assert Settle(a, PingPong, r, Cursor(3, false), 3) == Ok((Cursor(0, true), 0));
    assert Settle(a, PingPong, r, Cursor(3, false), 4) == Err(ArithmeticOverflow(SubUnderflow));
    assert Settle(a, PingPong, r, Cursor(2, false), 4) == Ok((Cursor(0, true), 0));
    assert Settle(a, PingPong, r, Cursor(2, false), 5) == Err(ArithmeticOverflow(SubUnderflow));
    assert Settle(a, PingPong, r, Cursor(1, false), 5) == Ok((Cursor(0, true), 0));
    assert Settle(a, PingPong, r, Cursor(1, false), 6) == Err(ArithmeticOverflow(SubUnderflow));
  }

  /** A one-slot ping-pong turns at once and steps to the slot before its
      range; the duration lookup for that slot then underflows, so the tick
      panics as soon as the only frame's duration has elapsed
      (src/systems.rs:95-97 and 109-110). */
  lemma SingleSlotPingPongPanics(a: Aseprite, s: int, elapsed: nat)
    requires 0 <= s && s + 1 < U32_LIMIT
    requires PositiveDurations(a) && |a.frameDurations| >= 1 && elapsed >= a.frameDurations[0]
    ensures s >= 1 ==> Step(PingPong, Range(s, s + 1), Cursor(s, false)) == Ok(Cursor(s - 1, true))
    ensures Settle(a, PingPong, Range(s, s + 1), Cursor(s, false), elapsed) == Err(ArithmeticOverflow(SubUnderflow))
  {
  }

  /** The corrected step: compare before subtracting, so slot 0 no longer
      underflows, and let a one-slot ping-pong stay on its slot. */
  function IntendedStep(dir: Direction, range: Range, c: Cursor): (r: Cursor)
    requires InRange(range, c.index)
    ensures InRange(range, r.index)
    ensures dir != PingPong ==> r.pong == c.pong
  {
    match dir
    case Forward =>
      Cursor(if c.index + 1 >= range.end then range.start else c.index + 1, c.pong)
    case Backward =>
      Cursor(if c.index <= range.start then range.end - 1 else c.index - 1, c.pong)
    case PingPong =>
      if !c.pong then
        if c.index + 1 >= range.end then Cursor(if c.index > range.start then c.index - 1 else c.index, true)
        else Cursor(c.index + 1, false)
      else if c.index <= range.start then Cursor(if c.index + 1 < range.end then c.index + 1 else c.index, false)
      else Cursor(c.index - 1, true)
  }

  /** Wherever the code as written does not panic on a sound range, it does
      what the corrected step does. */
  lemma IntendedStepAgrees(dir: Direction, range: Range, c: Cursor)
    requires Sound(dir, range) && InRange(range, c.index)
    ensures Step(dir, range, c) == Ok(IntendedStep(dir, range, c))
  {
  }

  /** The corrected step moves on every range of two slots or more, slot 0
      included. */
  lemma IntendedStepMoves(dir: Direction, range: Range, c: Cursor)
    requires InRange(range, c.index) && range.end - range.start >= 2
    ensures IntendedStep(dir, range, c).index != c.index
  {
  }

  /** The loop with the corrected step: it stops, and stays in the range,
      on every non-empty range whose offsets have durations. */
  function IntendedSettle(a: Aseprite, dir: Direction, range: Range, c: Cursor, elapsed: nat): (r: (Cursor, nat))
    requires PositiveDurations(a) && InRange(range, c.index)
    requires range.start >= 0 && range.end - range.start <= |a.frameDurations|
    ensures InRange(range, r.0.index) && r.1 <= elapsed
    ensures r.1 < a.frameDurations[r.0.index - range.start]
    decreases elapsed
  {
    var dur := a.frameDurations[c.index - range.start];
    if elapsed < dur then (c, elapsed)
    else IntendedSettle(a, dir, range, IntendedStep(dir, range, c), elapsed - dur)
  }

  /** The corrected slots visited by `n` steps from `c`, `c` included. */
  function IntendedVisit(dir: Direction, range: Range, c: Cursor, n: nat): (r: seq<int>)
    requires InRange(range, c.index)
    ensures |r| == n + 1 && r[0] == c.index
    ensures forall k :: 0 <= k < |r| ==> InRange(range, r[k])
    decreases n
  {
    if n == 0 then [c.index]
    else [c.index] + IntendedVisit(dir, range, IntendedStep(dir, range, c), n - 1)
  }

  /** Corrected, PingPong on slots `0..4` keeps bouncing:
      0, 1, 2, 3, 2, 1, 0, 1, 2. */
  lemma IntendedPingPongFromZero()
    ensures IntendedVisit(PingPong, Range(0, 4), Cursor(0, false), 8) == [0, 1, 2, 3, 2, 1, 0, 1, 2]
  {
    var r := Range(0, 4);
    assert IntendedVisit(PingPong, r, Cursor(2, false), 0) == [2];
    assert IntendedVisit(PingPong, r, Cursor(1, false), 1) == [1, 2];
    assert IntendedVisit(PingPong, r, Cursor(0, true), 2) == [0, 1, 2];
    assert IntendedVisit(PingPong, r, Cursor(1, true), 3) == [1, 0, 1, 2];
    assert IntendedVisit(PingPong, r, Cursor(2, true), 4) == [2, 1, 0, 1, 2];
    assert IntendedVisit(PingPong, r, Cursor(3, false), 5) == [3, 2, 1, 0, 1, 2];
    assert IntendedVisit(PingPong, r, Cursor(2, false), 6) == [2, 3, 2, 1, 0, 1, 2];
    assert IntendedVisit(PingPong, r, Cursor(1, false), 7) == [1, 2, 3, 2, 1, 0, 1, 2];
  }

  /** Starting succeeds exactly when the range lookup does; then the
      direction is the tag's (or the default), and the first slot is the
      range's first, or its last for Backward. A Backward start never
      underflows, since only a tag selects Backward and a tag's range ends
      at one past a slot. */
  lemma StartPosition(a: Aseprite, f: Filter)
    requires U32Fields(a)
    ensures StartOf(a, f).Ok? <==> AtlasRange(a, f.layer, f.tag).Ok?
    ensures StartOf(a, f).Err? ==> StartOf(a, f).error == AtlasRange(a, f.layer, f.tag).error
    ensures StartOf(a, f).Ok? ==>
      var s, range := StartOf(a, f).value, AtlasRange(a, f.layer, f.tag).value;
      && s.range == range
      && (f.tag.None? ==> s.direction == DefaultDirection)
      && (f.tag.Some? ==> s.direction == FromTag(TagNamed(a, f.tag.value).value.direction))
      && s.index == (if s.direction == Backward then range.end - 1 else range.start)
      && (range.start < range.end ==> InRange(range, s.index))
  {
  }
}
