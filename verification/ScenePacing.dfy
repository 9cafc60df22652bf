/** The frame loop of a recorded scene against a clock that only moves forward: how far the
    number of frames written can drift from the time elapsed.
 */
module ScenePacing {
  import opened Basics
  import opened Rounding
  import opened MonotonicClock

  /** A video file; each frame is named by the pass that rendered it. */
  class Writer {
    var frames: seq<nat>

    constructor ()
      ensures frames == []
    {
      frames := [];
    }

    method Write(frame: nat)
      modifies this
      ensures frames == old(frames) + [frame]
    {
      frames := frames + [frame];
    }
  }

  function Copies(frame: nat, n: nat): seq<nat> { seq(n, _ => frame) }

  method WriteBoth(mkv: Writer, mp4: Writer?, frame: nat, n: nat)
    requires mkv != mp4
    modifies mkv, mp4
    ensures mkv.frames == old(mkv.frames) + Copies(frame, n)
    ensures mp4 != null ==> mp4.frames == old(mp4.frames) + Copies(frame, n)
  {
    var i := 0;
    while i < n
      invariant i <= n
      invariant mkv.frames == old(mkv.frames) + Copies(frame, i)
      invariant mp4 != null ==> mp4.frames == old(mp4.frames) + Copies(frame, i)
    {
      mkv.Write(frame);
      if mp4 != null { mp4.Write(frame); }
      i := i + 1;
      assert Copies(frame, i) == Copies(frame, i - 1) + [frame];
    }
  }

  /** One pass of the loop: the scene time its frame was taken at, and the frames written by its end. */
  datatype Pass = Pass(at: real, written: nat)

  /** A span of time counted in frames. */
  function InFrames(seconds: real, fps: real): real { seconds * fps }

  ghost predicate WithinDrift(p: Pass, fps: real) {
    InFrames(p.at, fps) - 0.5 <= p.written as real <= InFrames(p.at, fps) + 1.5
  }

  // ---------------------------------------------------------------- arithmetic in frames

  lemma InFramesMonotone(a: real, b: real, fps: real)
    requires a <= b && fps > 0.0
    ensures InFrames(a, fps) <= InFrames(b, fps)
    ensures a < b ==> InFrames(a, fps) < InFrames(b, fps)
  {
  }

  lemma ZeroFrames(fps: real)
    ensures InFrames(0.0, fps) == 0.0
  {
  }

  /** A pass that lasts one frame period moves the clock on by one frame. */
  lemma OnePeriod(a: real, b: real, fps: real)
    requires fps > 0.0 && b - a >= 1.0 / fps
    ensures InFrames(b, fps) >= InFrames(a, fps) + 1.0
  {
    InFramesMonotone(a + 1.0 / fps, b, fps);
    assert (a + 1.0 / fps) * fps == a * fps + 1.0;
  }

  /** `elapsed` after `n` frames were added to it in any number of steps. */
  function After(elapsed0: real, n: nat, fps: real): real
    requires fps > 0.0
  {
    elapsed0 + n as real * (1.0 / fps)
  }

  lemma AfterMore(elapsed0: real, n: nat, more: nat, fps: real)
    requires fps > 0.0
    ensures After(elapsed0, n, fps) + more as real * (1.0 / fps) == After(elapsed0, n + more, fps)
    ensures After(elapsed0, 0, fps) == elapsed0
    ensures After(elapsed0, n, fps) == elapsed0 + n as real / fps
  {
  }

  /** The frame count after a pass taken at frame time `at`, if `written` frames were out when it began at `start`. */
  lemma DriftStep(start: real, at: real, written: nat)
    requires 0.0 <= start <= at && written as real <= start + 0.5
    ensures var target := Max(written + 1, Round(at));
            at - 0.5 <= target as real <= at + 1.5
            && (target as real <= start + 1.5 || target as real <= at + 0.5)
  {
  }

  lemma RoundBound(x: real, n: nat)
    requires n as real < x + 1.0
    ensures n <= Round(x) + 1
  {
  }

  // ---------------------------------------------------------------- what every pass keeps

  ghost function LastWritten(passes: seq<Pass>): nat {
    if passes == [] then 0 else passes[|passes| - 1].written
  }

  /** Later passes are later in the scene and leave more frames behind. */
  ghost predicate InOrder(passes: seq<Pass>, end: real) {
    && (forall i :: 0 <= i < |passes| ==> 0.0 <= passes[i].at <= end)
    && (forall i :: 0 < i < |passes| ==> passes[i - 1].at <= passes[i].at && passes[i - 1].written < passes[i].written)
  }

  ghost predicate AllWithinDrift(passes: seq<Pass>, fps: real) {
    forall i :: 0 <= i < |passes| ==> WithinDrift(passes[i], fps)
  }

  /** The passes so far, all over by scene time `end`, in a scene of the given duration. */
  ghost predicate OnPace(passes: seq<Pass>, end: real, duration: real, fps: real) {
    && 0.0 <= end && InOrder(passes, end) && AllWithinDrift(passes, fps)
    && LastWritten(passes) as real <= InFrames(end, fps) + 0.5
    && |passes| as real <= InFrames(end, fps)
    && (passes != [] ==> |passes| as real < InFrames(duration, fps) + 1.0)
  }

  /** Every pass shows the frame it captured from where the one before left off up to its own target,
      and the last frame fills whatever follows. */
  ghost predicate Shows(passes: seq<Pass>, out: seq<nat>) {
    && LastWritten(passes) <= |out|
    && (forall k, i :: 0 <= k < |passes| && LastWritten(passes[..k]) <= i < passes[k].written && i < |out| ==>
          out[i] == k)
    && (forall i :: LastWritten(passes) <= i < |out| ==> out[i] == |passes| - 1)
  }

  lemma ShowsOneMore(passes: seq<Pass>, out: seq<nat>, p: Pass, end: real)
    requires Shows(passes, out) && |out| == LastWritten(passes) <= p.written && InOrder(passes, end)
    ensures Shows(passes + [p], out + Copies(|passes|, p.written - |out|))
  {
    var after := passes + [p];
    forall k | 0 <= k <= |passes| ensures after[..k] == passes[..k] { }
    WrittenGrows(passes, end);
  }

  lemma {:induction false} WrittenGrows(passes: seq<Pass>, end: real)
    requires InOrder(passes, end)
    ensures forall k :: 0 <= k < |passes| ==> passes[k].written <= LastWritten(passes)
  {
    if |passes| > 1 {
      var init := passes[..|passes| - 1];
      WrittenGrows(init, end);
      assert passes[|init| - 1].written < passes[|init|].written;
    }
  }

  lemma ShowsPadding(passes: seq<Pass>, out: seq<nat>, n: nat, end: real)
    requires passes != [] && Shows(passes, out) && |out| == LastWritten(passes) && InOrder(passes, end)
    ensures Shows(passes, out + Copies(|passes| - 1, n))
  {
    WrittenGrows(passes, end);
  }

  lemma NoPasses(duration: real, fps: real)
    ensures OnPace([], 0.0, duration, fps) && Shows([], [])
  {
  }

  /** One more pass: begun at `from`, with its frame taken at `at`, over by `ended`, a frame period or more
      after it began. */
  lemma PassKeepsPace(passes: seq<Pass>, end: real, from: real, at: real, ended: real, duration: real, fps: real)
    requires fps > 0.0 && OnPace(passes, end, duration, fps)
    requires end < duration && end <= from <= at <= ended && ended - from >= 1.0 / fps
    ensures var target := Max(LastWritten(passes) + 1, Round(InFrames(at, fps)));
            OnPace(passes + [Pass(at, target)], ended, duration, fps)
    ensures |passes| + 1 <= Round(InFrames(duration, fps)) + 1
  {
    hide InFrames, Round;
    ZeroFrames(fps);
    InFramesMonotone(0.0, end, fps);
    InFramesMonotone(end, from, fps);
    InFramesMonotone(from, at, fps);
    InFramesMonotone(at, ended, fps);
    InFramesMonotone(end, duration, fps);
    OnePeriod(from, ended, fps);
    DriftStep(InFrames(from, fps), InFrames(at, fps), LastWritten(passes));
    RoundBound(InFrames(duration, fps), |passes| + 1);
  }

  // ---------------------------------------------------------------- the loop

  /** The end of a pass: sleeps for what is left of its frame period. */
  method Pace(clock: Clock, loopStart: real, framePeriod: real)
    requires loopStart <= clock.now
    modifies clock
    ensures clock.now >= loopStart + framePeriod && clock.now >= old(clock.now)
    ensures old(clock.ticks) <= clock.ticks <= old(clock.ticks) + 2
    ensures framePeriod >= 0.0 ==>
              clock.now <= old(clock.now) + clock.Passed(old(clock.ticks), clock.ticks) + framePeriod
  {
    ghost var tick := clock.ticks;
    var done := clock.Monotonic();
    assert clock.Passed(tick, tick + 1) == clock.Gap(tick);
    var sleepFor := framePeriod - (done - loopStart);
    if sleepFor > 0.0 { clock.Sleep(sleepFor); }
  }

  /** From the reading `now0` on, `n` passes and the looks at the clock account for all the time that has gone by. */
  ghost predicate Busy(clock: Clock, now0: real, start: nat, now: real, tick: nat, n: nat, fps: real)
    requires fps > 0.0
  {
    && start + 2 <= tick <= start + 2 + 5 * n
    && now <= now0 + clock.Passed(start, tick) + After(0.0, n, fps)
  }

  lemma BusyStart(clock: Clock, now0: real, start: nat, fps: real)
    requires fps > 0.0
    ensures Busy(clock, now0, start, now0 + clock.Gap(start) + clock.Gap(start + 1), start + 2, 0, fps)
  {
    assert clock.Passed(start, start + 1) == clock.Gap(start);
  }

  lemma BusyPass(clock: Clock, now0: real, start: nat, now: real, tick: nat, n: nat, fps: real, later: real, tick': nat)
    requires fps > 0.0 && Busy(clock, now0, start, now, tick, n, fps) && tick <= tick' <= tick + 4
    requires later <= now + clock.Passed(tick, tick') + 1.0 / fps
    ensures Busy(clock, now0, start, later + clock.Gap(tick'), tick' + 1, n + 1, fps)
  {
    clock.PassedAdds(start, tick, tick');
    AfterMore(0.0, n, 1, fps);
    hide After;
  }

  lemma NoTimeIdled(clock: Clock, now0: real, start: nat, now: real, tick: nat, n: nat, fps: real)
    requires fps > 0.0 && Busy(clock, now0, start, now, tick, n, fps)
    ensures tick <= start + 2 + 5 * n && now <= now0 + clock.Passed(start, tick) + n as real / fps
  {
    AfterMore(0.0, n, 0, fps);
    hide After;
  }

  /** One pass of the loop: captures frame number `shots` and writes it as often as the clock asks for. */
  method WritePass(clock: Clock, sceneStart: real, fps: real, written: nat, shots: nat, mkv: Writer, mp4: Writer?)
      returns (target: nat, at: real, ghost from: real)
    requires fps > 0.0 && mkv != mp4
    modifies clock, mkv, mp4
    ensures old(clock.now) - sceneStart <= from <= at <= clock.now - sceneStart
    ensures clock.now - sceneStart - from >= 1.0 / fps
    ensures old(clock.ticks) <= clock.ticks <= old(clock.ticks) + 4
    ensures clock.now <= old(clock.now) + clock.Passed(old(clock.ticks), clock.ticks) + 1.0 / fps
    ensures target == Max(written + 1, Round(InFrames(at, fps)))
    ensures mkv.frames == old(mkv.frames) + Copies(shots, target - written)
    ensures mp4 != null ==> mp4.frames == old(mp4.frames) + Copies(shots, target - written)
  {
    hide Round, InFrames;
    ghost var tick := clock.ticks;
    var loopStart := clock.Monotonic();
    assert clock.Passed(tick, tick + 1) == clock.Gap(tick);
    var captured := clock.Monotonic();
    from, at := loopStart - sceneStart, captured - sceneStart;
    target := Max(written + 1, Round(InFrames(at, fps)));
    WriteBoth(mkv, mp4, shots, target - written);
    Pace(clock, loopStart, 1.0 / fps);
    clock.PassedAdds(tick, tick + 2, clock.ticks);
  }

  /** `write_scene_capture`, with what it draws left out.  `passes` records every pass of its loop.
      fps = 0 is a division by zero in the source. */
  method WriteSceneCapture(clock: Clock, duration: real, fps: real, elapsed0: real, mkv: Writer, mp4: Writer?)
      returns (elapsed: real, ghost passes: seq<Pass>, ghost out: seq<nat>)
    requires fps > 0.0 && mkv != mp4
    modifies clock, mkv, mp4
    // both files got the same frames
    ensures mkv.frames == old(mkv.frames) + out
    ensures mp4 != null ==> mp4.frames == old(mp4.frames) + out
    ensures passes != [] ==> Shows(passes, out)
    // and `elapsed` advanced by exactly their playing time
    ensures elapsed == elapsed0 + |out| as real / fps
    // after every pass the frames written keep within half a frame below and one and a half above the clock
    ensures forall p <- passes :: p.at * fps - 0.5 <= p.written as real <= p.at * fps + 1.5
    // the scene gets its full length exactly when less than its duration passes between its start and
    // the first look at the clock (or it has no frames to begin with); otherwise it gets no frame
    ensures passes == [] <==> clock.Gap(old(clock.ticks) + 1) >= duration
    ensures |out| == if passes == [] then 0 else Max(LastWritten(passes), Round(duration * fps))
    ensures |out| >= Round(duration * fps) <==>
            clock.Gap(old(clock.ticks) + 1) < duration || Round(duration * fps) <= 0
    ensures passes != [] ==> |passes| as real < duration * fps + 1.0
    // the clock ran for the whole duration, and the passes lie within that time in order
    ensures clock.now - old(clock.now) >= duration
    ensures InOrder(passes, clock.now - old(clock.now))
    // no time is idled away: each pass looks at the clock a few times and sleeps for a frame period at most
    ensures clock.ticks <= old(clock.ticks) + 2 + 5 * |passes|
    ensures clock.now <= old(clock.now) + clock.Passed(old(clock.ticks), clock.ticks) + |passes| as real / fps
  {
    hide Round, InFrames, After, OnPace, Shows, AllWithinDrift, InOrder, Busy;
    ghost var start := old(clock.ticks);
    var sceneStart := clock.Monotonic();
    var now := clock.Monotonic();
    BusyStart(clock, old(clock.now), start, fps);
    var written, shots;
    ghost var end;
    elapsed, written, shots, passes, out, end :=
      RunPasses(clock, sceneStart, now, duration, fps, elapsed0, mkv, mp4, old(clock.now), start);
    NoTimeIdled(clock, old(clock.now), start, clock.now, clock.ticks, |passes|, fps);
    var padding;
    elapsed, padding := PadScene(mkv, mp4, shots, written, Round(InFrames(duration, fps)), fps, elapsed0, elapsed);
    if shots > 0 { ShowsPadded(passes, out, padding, end, duration, fps); }
    out := out + Copies(if shots > 0 then shots - 1 else 0, padding);
    PaceFacts(passes, end, clock.now - old(clock.now), duration, fps);
    InUnits(passes, duration, fps);
  }

  /** The loop of the scene.  `first` is the reading it begins with, `shots` the number of frames captured; 0 stands
      for `last_frame is None`.  Every pass was over by scene time `end`. */
  method RunPasses(clock: Clock, sceneStart: real, first: real, duration: real, fps: real, elapsed0: real,
                   mkv: Writer, mp4: Writer?, ghost now0: real, ghost start: nat)
      returns (elapsed: real, written: nat, shots: nat, ghost passes: seq<Pass>, ghost out: seq<nat>, ghost end: real)
    requires fps > 0.0 && mkv != mp4 && sceneStart <= first == clock.now
    requires Busy(clock, now0, start, clock.now, clock.ticks, 0, fps)
    modifies clock, mkv, mp4
    ensures clock.now - sceneStart >= duration && clock.now - sceneStart >= end
    ensures mkv.frames == old(mkv.frames) + out
    ensures mp4 != null ==> mp4.frames == old(mp4.frames) + out
    ensures shots == |passes| && |out| == written == LastWritten(passes)
    ensures elapsed == After(elapsed0, written, fps)
    ensures OnPace(passes, end, duration, fps) && Shows(passes, out)
    ensures Busy(clock, now0, start, clock.now, clock.ticks, |passes|, fps)
    ensures passes == [] <==> first - sceneStart >= duration
  {
    hide Round, InFrames, After, OnPace, Shows, AllWithinDrift, InOrder, Busy;
    var framePeriod := 1.0 / fps;
    elapsed, written, shots := elapsed0, 0, 0;
    passes, out, end := [], [], 0.0;
    var now := first;
    AfterMore(elapsed0, 0, 0, fps);
    NoPasses(duration, fps);
    while now - sceneStart < duration
      invariant clock.now == now && now - sceneStart >= end
      invariant mkv.frames == old(mkv.frames) + out
      invariant mp4 != null ==> mp4.frames == old(mp4.frames) + out
      invariant shots == |passes| && |out| == written == LastWritten(passes)
      invariant elapsed == After(elapsed0, written, fps)
      invariant OnPace(passes, end, duration, fps) && Shows(passes, out)
      invariant Busy(clock, now0, start, clock.now, clock.ticks, |passes|, fps)
      invariant if passes == [] then now == first else first - sceneStart < duration
      decreases Round(InFrames(duration, fps)) + 2 - shots
    {
      ghost var from;
      ghost var tick, before := clock.ticks, clock.now;
      var target, at;
      target, at, from := WritePass(clock, sceneStart, fps, written, shots, mkv, mp4);
      ghost var shown := out;
      out := out + Copies(shots, target - written);
      shots := shots + 1;
      AfterMore(elapsed0, written, target - written, fps);
      elapsed := elapsed + (target - written) as real * framePeriod;
      written := target;
      PassKeepsPace(passes, end, from, at, clock.now - sceneStart, duration, fps);
      ShowsStep(passes, shown, Pass(at, target), end, duration, fps);
      passes := passes + [Pass(at, target)];
      end := clock.now - sceneStart;
      BusyPass(clock, now0, start, before, tick, |passes| - 1, fps, clock.now, clock.ticks);
      now := clock.Monotonic();
    }
  }

  /** A clock that jumps past the duration before the first look at it: no frame, though some are due. */
  method JumpLeavesNoFrame(duration: real, fps: real) returns (mkv: Writer, ghost out: seq<nat>)
    requires fps > 0.0 && Round(InFrames(duration, fps)) >= 1
    ensures out == [] && fresh(mkv) && mkv.frames == []
  {
    var clock := new Clock(k => if k == 1 then duration else 0.0);
    mkv := new Writer();
    var elapsed;
    ghost var passes;
    assert clock.Gap(1) >= duration;
    elapsed, passes, out := WriteSceneCapture(clock, duration, fps, 0.0, mkv, null);
  }

  /** The end of the scene: its last frame, if there is one, fills up what is missing. */
  method PadScene(mkv: Writer, mp4: Writer?, shots: nat, written: nat, expected: int, fps: real,
                  ghost elapsed0: real, elapsed: real) returns (total: real, missing: nat)
    requires fps > 0.0 && mkv != mp4 && elapsed == After(elapsed0, written, fps)
    modifies mkv, mp4
    ensures missing == if shots > 0 && written < expected then expected - written else 0
    ensures mkv.frames == old(mkv.frames) + Copies(if shots > 0 then shots - 1 else 0, missing)
    ensures mp4 != null ==> mp4.frames == old(mp4.frames) + Copies(if shots > 0 then shots - 1 else 0, missing)
    ensures total == elapsed0 + (written + missing) as real / fps
  {
    hide After;
    total, missing := elapsed, 0;
    if shots > 0 && written < expected {
      missing := expected - written;
      WriteBoth(mkv, mp4, shots - 1, missing);
      AfterMore(elapsed0, written, missing, fps);
      total := total + missing as real * (1.0 / fps);
    }
    AfterMore(elapsed0, written + missing, 0, fps);
  }

  lemma ShowsStep(passes: seq<Pass>, out: seq<nat>, p: Pass, end: real, duration: real, fps: real)
    requires OnPace(passes, end, duration, fps) && Shows(passes, out) && |out| == LastWritten(passes) <= p.written
    ensures Shows(passes + [p], out + Copies(|passes|, p.written - |out|))
  {
    ShowsOneMore(passes, out, p, end);
  }

  lemma ShowsPadded(passes: seq<Pass>, out: seq<nat>, n: nat, end: real, duration: real, fps: real)
    requires OnPace(passes, end, duration, fps) && passes != [] && Shows(passes, out) && |out| == LastWritten(passes)
    ensures Shows(passes, out + Copies(|passes| - 1, n))
  {
    ShowsPadding(passes, out, n, end);
  }

  lemma InUnits(passes: seq<Pass>, duration: real, fps: real)
    ensures InFrames(duration, fps) == duration * fps
    ensures AllWithinDrift(passes, fps) ==>
              forall p <- passes :: p.at * fps - 0.5 <= p.written as real <= p.at * fps + 1.5
  {
  }

  lemma PaceFacts(passes: seq<Pass>, end: real, later: real, duration: real, fps: real)
    requires OnPace(passes, end, duration, fps) && end <= later
    ensures AllWithinDrift(passes, fps) && InOrder(passes, later)
    ensures passes != [] ==> |passes| as real < InFrames(duration, fps) + 1.0
  {
  }
}
