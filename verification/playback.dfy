/** Animated-image playback (`updateGifAnimation`) and the draw guard of `renderFrame`. */
module Playback {
  import opened ViewerTypes
  import opened Cache

  /** Does the entry carry an animation with more than one frame? */
  predicate Animated(m: ImageMetadata)
  {
    m.gifAnimation.Some? && m.gifAnimation.value.Count() > 1
  }

  /** One tick of `updateGifAnimation` at time `now`: once the deadline has passed, advance
      one frame (wrapping) and set the next deadline `delay` milliseconds after `now`,
      with `Uint32` wrap-around. */
  function Tick(m: ImageMetadata, now: U32): (t: ImageMetadata)
    ensures t == m.(gifCurrentFrame := t.gifCurrentFrame, gifNextFrameTime := t.gifNextFrameTime)
    ensures m.gifAnimation.Some? && m.gifCurrentFrame < m.gifAnimation.value.Count() ==>
      t.gifCurrentFrame < m.gifAnimation.value.Count()
  {
    if !Animated(m) || now < m.gifNextFrameTime then m
    else
      var anim := m.gifAnimation.value;
      var f := (m.gifCurrentFrame + 1) % anim.Count();
      m.(gifCurrentFrame := f, gifNextFrameTime := (now + anim.delays[f]) % U32_LIMIT)
  }

  /** No animation, or one with at most one frame: nothing ever changes. */
  lemma StaticNeverTicks(m: ImageMetadata, now: U32)
    requires !Animated(m)
    ensures Tick(m, now) == m
  {
  }

  /** Before the deadline nothing changes. */
  lemma WaitsForDeadline(m: ImageMetadata, now: U32)
    requires now < m.gifNextFrameTime
    ensures Tick(m, now) == m
  {
  }

  /** When due, exactly one frame is advanced, however late the tick is, and the next
      deadline is the new frame's delay after `now`; nothing but the two timing fields changes. */
  lemma AdvancesOneFrame(m: ImageMetadata, now: U32)
    requires Animated(m) && now >= m.gifNextFrameTime
    ensures var t := Tick(m, now); var anim := m.gifAnimation.value;
      && t.gifCurrentFrame == (m.gifCurrentFrame + 1) % anim.Count()
      && (now + anim.delays[t.gifCurrentFrame] < U32_LIMIT ==> t.gifNextFrameTime == now + anim.delays[t.gifCurrentFrame])
      && t == m.(gifCurrentFrame := t.gifCurrentFrame, gifNextFrameTime := t.gifNextFrameTime)
  {
  }

  /** The frame index never leaves `[0, count)` once it is there, whatever the clock does. */
  lemma {:induction false} FrameStaysInRange(m: ImageMetadata, times: seq<U32>)
    requires m.gifAnimation.Some? && m.gifCurrentFrame < m.gifAnimation.value.Count()
    ensures var t := Replay(m, times);
      t.gifAnimation == m.gifAnimation && t.gifCurrentFrame < m.gifAnimation.value.Count()
    decreases |times|
  {
    if times != [] {
      FrameStaysInRange(Tick(m, times[0]), times[1..]);
    }
  }

  /** Successive ticks at the given times. */
  function Replay(m: ImageMetadata, times: seq<U32>): ImageMetadata
    decreases |times|
  {
    if times == [] then m else Replay(Tick(m, times[0]), times[1..])
  }

  /** Timing scenario: delays of 100 ms and 200 ms, frame 0 due at `t0 + 100`. A tick at
      `t0 + 150` shows frame 1 until `t0 + 350`; a single late tick at `t0 + 500` still
      advances only to frame 1, due at `t0 + 700`. */
  lemma TimingScenario(m: ImageMetadata, t0: nat)
    requires t0 + 700 < U32_LIMIT
    requires m.gifAnimation == Some(GifAnimation([100, 200]))
    requires m.gifCurrentFrame == 0 && m.gifNextFrameTime == t0 + 100
    ensures Tick(m, t0 + 150).gifCurrentFrame == 1 && Tick(m, t0 + 150).gifNextFrameTime == t0 + 350
    ensures Tick(m, t0 + 500).gifCurrentFrame == 1 && Tick(m, t0 + 500).gifNextFrameTime == t0 + 700
    ensures Tick(m, t0 + 99) == m
  {
  }

  /** `renderFrame` draws (and ticks the animation) only when a texture is active, its entry
      is loaded, and the entry's texture name is not 0. */
  predicate ShouldDraw(v: View): (draws: bool)
    ensures draws ==> 0 <= v.active < |v.entries| && v.entries[v.active].state == Loaded && v.entries[v.active].textureID != 0
  {
    0 <= v.active < |v.entries| && v.entries[v.active].state == Loaded && v.entries[v.active].textureID != 0
  }

  /** Under the viewer's invariants the guard reduces to "some texture is active". */
  lemma DrawsExactlyWhenActive(v: View)
    requires Consistent(v)
    ensures ShouldDraw(v) <==> v.active >= 0
  {
  }
}
