/**
 * The animated-avatar engine: the classifier run when an avatar is built, the
 * decode worker, the per-key playback state machine and the frame selector
 * run on every render.
 *
 * The two process-wide maps (status cache and play states) are the fields of
 * one `AvatarEngine` object, and every section the source runs under a lock is
 * one method of it. The WebP decoder and the PNG re-encode are replaced by a
 * sequence of decoded frames, each with its timestamp and whether it converts;
 * `Instant` is a number of milliseconds.
 */
module AnimatedAvatar {
  import opened Wrappers
  import Text

  /** One frame as the WebP decoder yields it: its absolute timestamp in
      milliseconds and whether its RGBA buffer re-encodes to a PNG image. */
  datatype DecodedFrame = DecodedFrame(timestamp: nat, converts: bool)

  /** A renderable image, known by the position in the decoded stream of the frame it was made from. */
  datatype Image = Image(streamIndex: nat)

  /** Frames and their display times in milliseconds, index for index. */
  datatype AnimationData = AnimationData(frames: seq<Image>, frameDelays: seq<nat>)

  /** What the status cache records for a path. */
  datatype AnimationStatus = Checking | Static | Animated(data: AnimationData)

  /** Playback progress of one path, shared by every avatar showing it. */
  datatype PlayState = PlayState(currentFrame: nat, lastUpdate: nat, warmedUp: bool, warmupFrame: nat)

  /** The fallback image: the local file when it exists, else the string itself (`ImageSource::from`). */
  datatype ImageSource = FilePath(path: string) | FromString(s: string)

  /** One avatar element: its cache key and its fallback image. */
  datatype Avatar = Avatar(imagePath: string, imageSource: ImageSource)

  /** What a render draws. */
  datatype Shown = SourceImage(source: ImageSource) | FrameImage(image: Image)

  const DefaultDelay: nat := 100
  const MinDelay: nat := 16

  /** `u64::saturating_sub`, also the semantics of `Instant::elapsed` on a clock read behind `last`. */
  function SaturatingSub(a: nat, b: nat): nat {
    if a >= b then a - b else 0
  }

  function Max(a: nat, b: nat): nat {
    if a >= b then a else b
  }

  function Min(a: nat, b: nat): nat {
    if a <= b then a else b
  }

  // ---------------------------------------------------------------------------
  // Classifier

  /** Detection runs only for an existing file whose lower-cased path ends in ".webp" or ".gif". */
  predicate IsCandidate(path: string, fileExists: bool)
    ensures IsCandidate(path, fileExists) ==> fileExists && |path| >= |".gif"|
  {
    var lower := Text.Lowercase(path);
    (Text.EndsWith(lower, ".webp") || Text.EndsWith(lower, ".gif")) && fileExists
  }

  /** The extension test ignores ASCII case: paths that match ignoring ASCII case, such as a path and its lower-cased form, are candidates alike. */
  lemma CandidateIgnoresCase(path: string, other: string, fileExists: bool)
    ensures Text.EqIgnoreAsciiCase(path, other) ==> IsCandidate(path, fileExists) == IsCandidate(other, fileExists)
    ensures IsCandidate(Text.Lowercase(path), fileExists) == IsCandidate(path, fileExists)
  {
    Text.LowercaseIdempotent(path);
  }

  // ---------------------------------------------------------------------------
  // Decode worker

  /** The delay of a frame from its timestamp and the previous recorded one. */
  function FrameDelay(lastTimestamp: nat, timestamp: nat): (d: nat)
    ensures d >= MinDelay
    ensures lastTimestamp == 0 ==> d == DefaultDelay
    ensures lastTimestamp != 0 && timestamp >= lastTimestamp + MinDelay ==> d == timestamp - lastTimestamp
    ensures lastTimestamp != 0 && timestamp < lastTimestamp + MinDelay ==> d == MinDelay
  {
    if lastTimestamp == 0 then DefaultDelay
    else Max(SaturatingSub(timestamp, lastTimestamp), MinDelay)
  }

  /** The timestamp the decode loop holds after the frames of `s`: the last one seen, converted or not. */
  function LastTimestamp(s: seq<DecodedFrame>): nat {
    if |s| == 0 then 0 else s[|s| - 1].timestamp
  }

  /** The timestamp recorded before frame `j` of `s` is looked at. */
  function PreviousTimestamp(s: seq<DecodedFrame>, j: nat): nat
    requires j <= |s|
  {
    LastTimestamp(s[..j])
  }

  /** Frames and delays the decode loop has pushed after the frames of `s`. */
  function Decoded(s: seq<DecodedFrame>): AnimationData {
    if |s| == 0 then AnimationData([], [])
    else
      var init := s[..|s| - 1];
      var d := Decoded(init);
      var f := s[|s| - 1];
      if f.converts then
        AnimationData(d.frames + [Image(|s| - 1)], d.frameDelays + [FrameDelay(LastTimestamp(init), f.timestamp)])
      else d
  }

  predicate SomeFrameConverts(s: seq<DecodedFrame>) {
    exists j :: 0 <= j < |s| && s[j].converts
  }

  /** Frames and delays stay paired, and every delay is at least the 16 ms floor. */
  lemma {:induction false} DecodedAligned(s: seq<DecodedFrame>)
    ensures |Decoded(s).frames| == |Decoded(s).frameDelays|
    ensures forall k :: 0 <= k < |Decoded(s).frameDelays| ==> Decoded(s).frameDelays[k] >= MinDelay
  {
    if |s| > 0 {
      DecodedAligned(s[..|s| - 1]);
    }
  }

  /**
   * Frame k of the result is made from a converting frame j of the stream, in
   * stream order, and its delay is computed from the timestamp just before j,
   * even when that frame was dropped; every converting frame is kept.
   */
  lemma {:induction false} DecodedFrameOrigin(s: seq<DecodedFrame>)
    ensures |Decoded(s).frames| == |Decoded(s).frameDelays|
    ensures forall k :: 0 <= k < |Decoded(s).frames| ==>
      var j := Decoded(s).frames[k].streamIndex;
      j < |s| && s[j].converts
      && Decoded(s).frameDelays[k] == FrameDelay(PreviousTimestamp(s, j), s[j].timestamp)
    ensures forall k1, k2 :: 0 <= k1 < k2 < |Decoded(s).frames| ==>
      Decoded(s).frames[k1].streamIndex < Decoded(s).frames[k2].streamIndex
    ensures forall j :: 0 <= j < |s| ==> (Image(j) in Decoded(s).frames <==> s[j].converts)
  {
    DecodedAligned(s);
    if |s| > 0 {
      var init := s[..|s| - 1];
      DecodedFrameOrigin(init);
      DecodedAligned(init);
      forall j | 0 <= j < |init|
        ensures PreviousTimestamp(init, j) == PreviousTimestamp(s, j) && init[j] == s[j]
      {
        assert init[..j] == s[..j];
      }
      assert s[..|s| - 1] == init;
      forall j | 0 <= j < |s|
        ensures Image(j) in Decoded(s).frames <==> s[j].converts
      {
        if j < |init| {
          assert Image(j) in Decoded(init).frames <==> init[j].converts;
        }
      }
    }
  }

  /** The decode yields no frame exactly when no frame converts. */
  lemma DecodedEmptyIff(s: seq<DecodedFrame>)
    ensures |Decoded(s).frames| == 0 <==> !SomeFrameConverts(s)
  {
    DecodedFrameOrigin(s);
    if SomeFrameConverts(s) {
      var j :| 0 <= j < |s| && s[j].converts;
      assert Image(j) in Decoded(s).frames;
    }
    if |Decoded(s).frames| > 0 {
      var j := Decoded(s).frames[0].streamIndex;
      assert j < |s| && s[j].converts;
    }
  }

  /** Timestamps 0, 100, 250, 300, 420 give delays 100, 100, 150, 50, 120: the default applies twice, because the first recorded timestamp is 0. */
  lemma ScenarioDelays()
    ensures Decoded([DecodedFrame(0, true), DecodedFrame(100, true), DecodedFrame(250, true),
                     DecodedFrame(300, true), DecodedFrame(420, true)]).frameDelays == [100, 100, 150, 50, 120]
  {
    var s := [DecodedFrame(0, true), DecodedFrame(100, true), DecodedFrame(250, true),
              DecodedFrame(300, true), DecodedFrame(420, true)];
    assert s[..1][..0] == [] && s[..2][..1] == s[..1] && s[..3][..2] == s[..2];
    assert s[..4][..3] == s[..3] && s[..5][..4] == s[..4] && s[..5] == s;
    assert Decoded(s[..1]).frameDelays == [100];
    assert Decoded(s[..2]).frameDelays == [100, 100];
    assert Decoded(s[..3]).frameDelays == [100, 100, 150];
    assert Decoded(s[..4]).frameDelays == [100, 100, 150, 50];
  }

  /**
   * The decode loop: walks the stream once, records every timestamp, and
   * pushes an image and its delay together for each frame that converts.
   * `None` for the file means reading it or opening the decoder failed.
   */
  method DecodeWebpAnimation(file: Option<seq<DecodedFrame>>) returns (r: Option<AnimationData>)
    ensures r.Some? <==> file.Some? && SomeFrameConverts(file.value)
    ensures r.Some? ==> r.value == Decoded(file.value)
    ensures r.Some? ==> |r.value.frames| == |r.value.frameDelays| >= 1
  {
    if file.None? {
      return None;
    }
    var stream := file.value;
    var frames: seq<Image> := [];
    var frameDelays: seq<nat> := [];
    var lastTimestamp: nat := 0;
    var i := 0;
    while i < |stream|
      invariant 0 <= i <= |stream|
      invariant AnimationData(frames, frameDelays) == Decoded(stream[..i])
      invariant lastTimestamp == LastTimestamp(stream[..i])
    {
      var frame := stream[i];
      var delay := FrameDelay(lastTimestamp, frame.timestamp);
      lastTimestamp := frame.timestamp;
      if frame.converts {
        frames := frames + [Image(i)];
        frameDelays := frameDelays + [delay];
      }
      assert stream[..i + 1][..i] == stream[..i];
      i := i + 1;
    }
    assert stream[..i] == stream;
    DecodedEmptyIff(stream);
    DecodedAligned(stream);
    if |frames| == 0 {
      return None;
    }
    r := Some(AnimationData(frames, frameDelays));
  }

  /** The verdict of `is_animated_webp_sync`: the file reads, the decoder opens and it yields more than one frame. */
  predicate IsAnimatedSync(file: Option<seq<DecodedFrame>>) {
    file.Some? && |file.value| > 1
  }

  /**
   * `is_animated_webp_sync`: an unreadable or undecodable file (`None`) is not
   * animated; otherwise the decoder's frames are counted, and more than one
   * frame makes an animation.
   */
  method IsAnimatedWebpSync(file: Option<seq<DecodedFrame>>) returns (animated: bool)
    ensures animated <==> file.Some? && |file.value| >= 2
    ensures animated == IsAnimatedSync(file)
  {
    if file.None? {
      return false;
    }
    var frameCount := 0;
    var i := 0;
    while i < |file.value|
      invariant 0 <= i <= |file.value|
      invariant frameCount == i
    {
      frameCount := frameCount + 1;
      i := i + 1;
    }
    animated := frameCount > 1;
  }

  /** An animation the renderer can index: frames and delays paired, at least one frame. */
  predicate WellFormed(data: AnimationData) {
    |data.frames| == |data.frameDelays| && |data.frames| >= 1
  }

  /** The terminal status the decode worker publishes for a file. */
  function Classify(file: Option<seq<DecodedFrame>>): (st: AnimationStatus)
    ensures st != Checking
    ensures st.Animated? <==> IsAnimatedSync(file) && SomeFrameConverts(file.value)
    ensures st.Animated? ==> WellFormed(st.data) && st.data == Decoded(file.value)
  {
    if IsAnimatedSync(file) then
      DecodedEmptyIff(file.value);
      DecodedAligned(file.value);
      var d := Decoded(file.value);
      if |d.frames| == 0 then Static else Animated(d)
    else Static
  }

  /** Two decoded frames of which one converts are published as a one-frame animation, not as a static image. */
  lemma SingleSurvivingFrameIsAnimated()
    ensures Classify(Some([DecodedFrame(0, true), DecodedFrame(40, false)]))
         == Animated(AnimationData([Image(0)], [DefaultDelay]))
  {
    var s := [DecodedFrame(0, true), DecodedFrame(40, false)];
    assert s[..1][..0] == [] && s[..2] == s;
    assert Decoded(s[..1]) == AnimationData([Image(0)], [DefaultDelay]);
    assert Decoded(s) == Decoded(s[..1]);
    assert SomeFrameConverts(s) by { assert s[0].converts; }
  }

  // ---------------------------------------------------------------------------
  // Playback state machine

  /** The invariant a play state keeps against the frame count of its animation. */
  predicate Fits(ps: PlayState, n: nat) {
    ps.currentFrame < n && (!ps.warmedUp ==> ps.warmupFrame < n)
  }

  /** The play state the worker seeds: warm-up from frame 0. */
  function Seed(now: nat): (ps: PlayState)
    ensures forall n: nat :: n >= 1 ==> Fits(ps, n)
  {
    PlayState(0, now, false, 0)
  }

  /** The delay of frame `i`, 100 ms when there is none. */
  function DelayAt(data: AnimationData, i: nat): nat {
    if i < |data.frameDelays| then data.frameDelays[i] else DefaultDelay
  }

  /** The play state after one render, and the index of the frame that render draws. */
  datatype Tick = Tick(state: PlayState, shown: nat)

  /** One render of an animated path: a warm-up step, or a playing step that advances at most one frame. */
  function RenderTick(ps: PlayState, data: AnimationData, now: nat): (t: Tick)
    requires |data.frames| >= 1 && Fits(ps, |data.frames|)
    ensures Fits(t.state, |data.frames|)
    ensures t.shown < |data.frames|
    ensures ps.warmedUp ==> t.state.warmedUp && t.state.warmupFrame == ps.warmupFrame
    ensures ps.warmedUp ==> (t.state.currentFrame == ps.currentFrame
                          || t.state.currentFrame == (ps.currentFrame + 1) % |data.frames|)
  {
    var n := |data.frames|;
    if !ps.warmedUp then
      var wf := ps.warmupFrame + 1;
      var st := if wf >= n then ps.(warmupFrame := wf, warmedUp := true, currentFrame := 0, lastUpdate := now)
                else ps.(warmupFrame := wf);
      Tick(st, Min(wf, n - 1))
    else
      var st := if SaturatingSub(now, ps.lastUpdate) >= DelayAt(data, ps.currentFrame)
                then ps.(currentFrame := (ps.currentFrame + 1) % n, lastUpdate := now)
                else ps;
      Tick(st, st.currentFrame)
  }

  /**
   * A warm-up render moves the warm-up index on by exactly one; on reaching
   * the frame count it starts playback at frame 0 from `now`. It draws frame
   * min(warmupFrame, n - 1) of the advanced index.
   */
  lemma WarmupStep(ps: PlayState, data: AnimationData, now: nat)
    requires |data.frames| >= 1 && Fits(ps, |data.frames|) && !ps.warmedUp
    ensures var t := RenderTick(ps, data, now);
      var n := |data.frames|;
      && t.state.warmupFrame == ps.warmupFrame + 1
      && (t.state.warmedUp <==> ps.warmupFrame + 1 == n)
      && (t.state.warmedUp ==> t.state.currentFrame == 0 && t.state.lastUpdate == now)
      && (!t.state.warmedUp ==> t.state.currentFrame == ps.currentFrame && t.state.lastUpdate == ps.lastUpdate)
      && t.shown == (if ps.warmupFrame + 1 < n then ps.warmupFrame + 1 else n - 1)
  {
  }

  /**
   * A playing render advances to (current + 1) mod n and restarts the clock
   * exactly when the current frame's delay has elapsed; otherwise nothing
   * changes. It draws the frame it ends on.
   */
  lemma PlayingStep(ps: PlayState, data: AnimationData, now: nat)
    requires |data.frames| >= 1 && Fits(ps, |data.frames|) && ps.warmedUp
    ensures var t := RenderTick(ps, data, now);
      && (SaturatingSub(now, ps.lastUpdate) >= DelayAt(data, ps.currentFrame) ==>
            t.state == ps.(currentFrame := (ps.currentFrame + 1) % |data.frames|, lastUpdate := now))
      && (SaturatingSub(now, ps.lastUpdate) < DelayAt(data, ps.currentFrame) ==> t.state == ps)
      && t.shown == t.state.currentFrame
  {
  }

  /** The play state after one render at each of `times`, in order. */
  function Run(ps: PlayState, data: AnimationData, times: seq<nat>): (r: PlayState)
    requires |data.frames| >= 1 && Fits(ps, |data.frames|)
    ensures Fits(r, |data.frames|)
    decreases |times|
  {
    if |times| == 0 then ps
    else RenderTick(Run(ps, data, times[..|times| - 1]), data, times[|times| - 1]).state
  }

  /**
   * From a freshly seeded state, warm-up lasts exactly n renders whatever the
   * clock says: after k <= n renders the warm-up index is k, and playback has
   * started (at frame 0, from the last render's time) exactly when k == n.
   */
  lemma {:induction false} WarmupTakesFrameCountRenders(data: AnimationData, start: nat, times: seq<nat>)
    requires WellFormed(data) && |times| <= |data.frames|
    ensures var r := Run(Seed(start), data, times);
      && r.warmupFrame == |times|
      && (r.warmedUp <==> |times| == |data.frames|)
      && r.currentFrame == 0
      && (|times| == |data.frames| ==> r.lastUpdate == times[|times| - 1])
  {
    if |times| > 0 {
      WarmupTakesFrameCountRenders(data, start, times[..|times| - 1]);
    }
  }

  lemma MulAtLeast(d: int, n: int)
    requires d >= 1 && n > 0
    ensures d * n >= n
  {
  }

  /** Euclidean remainder is determined by any quotient/remainder split. */
  lemma ModUnique(x: int, n: int, q: int, r: int)
    requires n > 0 && 0 <= r < n && x == q * n + r
    ensures x % n == r
  {
    var q0, r0 := x / n, x % n;
    assert x == q0 * n + r0;
    assert (q0 - q) * n == r - r0;
    if q0 - q >= 1 {
      MulAtLeast(q0 - q, n);
    } else if q - q0 >= 1 {
      MulAtLeast(q - q0, n);
    }
    assert q0 == q;
  }

  lemma ModSucc(a: nat, n: nat)
    requires n > 0
    ensures (a % n + 1) % n == (a + 1) % n
  {
    var q, r := a / n, a % n;
    assert a == q * n + r;
    if r + 1 < n {
      ModUnique(a + 1, n, q, r + 1);
      ModUnique(r + 1, n, 0, r + 1);
    } else {
      ModUnique(a + 1, n, q + 1, 0);
      ModUnique(r + 1, n, 1, 0);
    }
  }

  /** A playing render whose delay has surely elapsed moves from frame (c + k) mod n to (c + k + 1) mod n. */
  lemma PlayingAdvance(prev: PlayState, data: AnimationData, now: nat, bound: nat, c: nat, k: nat)
    requires WellFormed(data) && Fits(prev, |data.frames|) && prev.warmedUp
    requires forall i :: 0 <= i < |data.frames| ==> DelayAt(data, i) <= bound
    requires now >= prev.lastUpdate + bound
    requires prev.currentFrame == (c + k) % |data.frames|
    ensures RenderTick(prev, data, now).state
         == prev.(currentFrame := (c + k + 1) % |data.frames|, lastUpdate := now)
  {
    assert DelayAt(data, prev.currentFrame) <= bound;
    PlayingStep(prev, data, now);
    ModSucc(c + k, |data.frames|);
  }

  /**
   * Once playing, if every render comes at least `bound` after the previous
   * advance and `bound` covers every frame's delay, each render advances
   * exactly one frame: after k renders the frame is (current + k) mod n, so
   * playback walks 0, 1, ..., n - 1 and wraps to 0.
   */
  lemma {:induction false} PlayingCycles(ps: PlayState, data: AnimationData, times: seq<nat>, bound: nat)
    requires WellFormed(data) && Fits(ps, |data.frames|) && ps.warmedUp
    requires forall i :: 0 <= i < |data.frames| ==> DelayAt(data, i) <= bound
    requires |times| > 0 ==> times[0] >= ps.lastUpdate + bound
    requires forall i :: 0 < i < |times| ==> times[i] >= times[i - 1] + bound
    ensures var r := Run(ps, data, times);
      && r.warmedUp
      && r.currentFrame == (ps.currentFrame + |times|) % |data.frames|
      && r.lastUpdate == (if |times| == 0 then ps.lastUpdate else times[|times| - 1])
  {
    if |times| > 0 {
      var k := |times| - 1;
      var init := times[..k];
      assert forall i :: 0 <= i < k ==> init[i] == times[i];
      PlayingCycles(ps, data, init, bound);
      var prev := Run(ps, data, init);
      assert Run(ps, data, times) == RenderTick(prev, data, times[k]).state;
      PlayingAdvance(prev, data, times[k], bound, ps.currentFrame, k);
    } else {
      ModUnique(ps.currentFrame, |data.frames|, 0, ps.currentFrame);
    }
  }

  // ---------------------------------------------------------------------------
  // The engine: status cache and play states

  /**
   * The engine invariant over the two maps and the dispatch log: the cache
   * holds exactly the dispatched paths and no path was dispatched twice; an
   * animated path has a well-formed animation and a play state; a play state
   * belongs to an animated path and fits its frame count.
   */
  ghost predicate EngineInvariant(cache: map<string, AnimationStatus>, states: map<string, PlayState>, dispatched: seq<string>) {
    && (forall k :: k in cache <==> k in dispatched)
    && (forall i, j :: 0 <= i < j < |dispatched| ==> dispatched[i] != dispatched[j])
    && (forall k :: k in cache && cache[k].Animated? ==> WellFormed(cache[k].data) && k in states)
    && (forall k :: k in states ==> k in cache && cache[k].Animated? && Fits(states[k], |cache[k].data.frames|))
  }

  /** Replacing the play state of an animated path by one that fits keeps the invariant. */
  lemma ReplacePlayState(cache: map<string, AnimationStatus>, states: map<string, PlayState>, dispatched: seq<string>,
                         key: string, ps: PlayState)
    requires EngineInvariant(cache, states, dispatched)
    requires key in cache && cache[key].Animated? && Fits(ps, |cache[key].data.frames|)
    ensures EngineInvariant(cache, states[key := ps], dispatched)
  {
  }

  /** Publishing the worker's verdict for a `Checking` path, with the play state seeded when animated, keeps the invariant. */
  lemma PublishVerdict(cache: map<string, AnimationStatus>, states: map<string, PlayState>, dispatched: seq<string>,
                       key: string, verdict: AnimationStatus, now: nat)
    requires EngineInvariant(cache, states, dispatched)
    requires key in cache && cache[key] == Checking && verdict != Checking
    requires verdict.Animated? ==> WellFormed(verdict.data)
    ensures var states' := if verdict.Animated? && key !in states then states[key := Seed(now)] else states;
      EngineInvariant(cache[key := verdict], states', dispatched)
  {
  }

  class AvatarEngine {
    /** Path -> detection status (the global status cache). */
    var statusCache: map<string, AnimationStatus>
    /** Path -> playback progress (the global play states). */
    var playStates: map<string, PlayState>
    /** Every path a decode worker has been dispatched for, in order. */
    ghost var Dispatched: seq<string>

    ghost predicate Valid()
      reads this
    {
      EngineInvariant(statusCache, playStates, Dispatched)
    }

    constructor ()
      ensures Valid()
      ensures statusCache == map[] && playStates == map[] && Dispatched == []
    {
      statusCache := map[];
      playStates := map[];
      Dispatched := [];
    }

    /**
     * `AnimatedAvatar::new`: picks the fallback source and, for a candidate
     * path, does the check-and-set on the status cache. `dispatched` says a
     * decode worker was started for the path.
     */
    method NewAvatar(pathOrUrl: string, fileExists: bool) returns (avatar: Avatar, dispatched: bool)
      requires Valid()
      modifies this
      ensures Valid()
      ensures avatar == Avatar(pathOrUrl, if fileExists then FilePath(pathOrUrl) else FromString(pathOrUrl))
      ensures dispatched <==> IsCandidate(pathOrUrl, fileExists) && pathOrUrl !in old(statusCache)
      ensures dispatched ==> statusCache == old(statusCache)[pathOrUrl := Checking]
                             && Dispatched == old(Dispatched) + [pathOrUrl]
      ensures !dispatched ==> statusCache == old(statusCache) && Dispatched == old(Dispatched)
      ensures playStates == old(playStates)
    {
      var imageSource := if fileExists then FilePath(pathOrUrl) else FromString(pathOrUrl);
      dispatched := false;
      var pathLower := Text.Lowercase(pathOrUrl);
      if (Text.EndsWith(pathLower, ".webp") || Text.EndsWith(pathLower, ".gif")) && fileExists {
        var cached := if pathOrUrl in statusCache then Some(statusCache[pathOrUrl]) else None;
        match cached {
          case Some(Animated(_)) =>
          case Some(Static) =>
          case Some(Checking) =>
          case None =>
            statusCache := statusCache[pathOrUrl := Checking];
            Dispatched := Dispatched + [pathOrUrl];
            dispatched := true;
        }
      }
      avatar := Avatar(pathOrUrl, imageSource);
    }

    /**
     * The body of the decode worker for `path` (`check_and_decode_async`):
     * replaces `Checking` by the terminal status of the file, and on
     * `Animated` seeds a play state unless one exists.
     */
    method CheckAndDecode(path: string, file: Option<seq<DecodedFrame>>, now: nat)
      requires Valid() && path in statusCache && statusCache[path] == Checking
      modifies this
      ensures Valid()
      ensures statusCache == old(statusCache)[path := Classify(file)]
      ensures Classify(file).Animated? && path !in old(playStates) ==>
                playStates == old(playStates)[path := Seed(now)]
      ensures !(Classify(file).Animated? && path !in old(playStates)) ==> playStates == old(playStates)
      ensures Dispatched == old(Dispatched)
    {
      PublishVerdict(statusCache, playStates, Dispatched, path, Classify(file), now);
      var animated := IsAnimatedWebpSync(file);
      if animated {
        var animationData := DecodeWebpAnimation(file);
        if animationData.Some? {
          statusCache := statusCache[path := Animated(animationData.value)];
          if path !in playStates {
            playStates := playStates[path := Seed(now)];
          }
        } else {
          statusCache := statusCache[path := Static];
        }
      } else {
        statusCache := statusCache[path := Static];
      }
    }

    /**
     * `render`: an animated path takes one step of its play state and draws
     * the selected frame; `Checking`, `Static` or an unknown path draws the
     * fallback source.
     */
    method Render(avatar: Avatar, now: nat) returns (shown: Shown)
      requires Valid()
      modifies this
      ensures Valid()
      ensures statusCache == old(statusCache) && Dispatched == old(Dispatched)
      ensures var key := avatar.imagePath;
        if key in statusCache && statusCache[key].Animated? then
          var data := statusCache[key].data;
          var t := RenderTick(old(playStates)[key], data, now);
          playStates == old(playStates)[key := t.state] && shown == FrameImage(data.frames[t.shown])
        else
          playStates == old(playStates) && shown == SourceImage(avatar.imageSource)
    {
      var key := avatar.imagePath;
      var animationStatus := if key in statusCache then Some(statusCache[key]) else None;
      match animationStatus {
        case Some(Animated(animationData)) =>
          var totalFrames := |animationData.frames|;
          var state := playStates[key];
          if !state.warmedUp {
            state := state.(warmupFrame := state.warmupFrame + 1);
            if state.warmupFrame >= totalFrames {
              state := state.(warmedUp := true, currentFrame := 0, lastUpdate := now);
            }
            shown := FrameImage(animationData.frames[Min(state.warmupFrame, totalFrames - 1)]);
          } else {
            var currentDelay := DelayAt(animationData, state.currentFrame);
            if SaturatingSub(now, state.lastUpdate) >= currentDelay {
              state := state.(currentFrame := (state.currentFrame + 1) % totalFrames, lastUpdate := now);
            }
            shown := FrameImage(animationData.frames[state.currentFrame]);
          }
          ReplacePlayState(statusCache, playStates, Dispatched, key, state);
          playStates := playStates[key := state];
        case _ =>
          shown := SourceImage(avatar.imageSource);
      }
    }
  }
}
