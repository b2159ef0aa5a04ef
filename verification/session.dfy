/**
 The whole application as one state machine: the settings held by the
 shell, and either the upload screen or the player screen with its image
 and its playback state. Events are a decoded image, the reset button, a
 settings control, a timer firing and the play/pause button. The player's
 state exists only while the player is mounted, so leaving the player
 screen discards it and the next image starts a fresh player.
 */
module Session {
  import opened Types
  import opened Settings
  import opened Controls
  import opened Playback
  import opened Geometry

  datatype Screen = Upload | Showing(image: ImageState, player: PlayerState)

  datatype AppState = AppState(settings: ZoetropeSettings, screen: Screen)

  datatype Event =
    | ImageLoaded(src: string, width: nat, height: nat)
    | ResetPressed
    | ControlUsed(control: Control)
    | TimerFired
    | PlayPausePressed

  /** The application as first rendered. */
  const Start: AppState := AppState(DefaultSettings, Upload)

  /** What every reachable state satisfies: settings in the panel's ranges
      and a frame index below the largest frame count. The index is NOT
      always below the current frame count: lowering the frame count leaves
      it where it was until the next tick. */
  predicate Inv(a: AppState)
  {
    && ValidSettings(a.settings)
    && (a.screen.Showing? ==> a.screen.player.currentFrame < MaxFrames)
  }

  /** One event. Controls, the timer and the play/pause button belong to the
      player screen and do nothing on the upload screen. A settings change
      leaves the player's state alone; a change of frame count or frame rate
      also restarts the timer. A decoded image mounts a fresh player; when a
      player is already mounted (a second file chosen before the first
      finished decoding), it keeps its state, as React does. */
  function Step(a: AppState, e: Event): (r: AppState)
    requires ValidSettings(a.settings)
    ensures ValidSettings(r.settings)
    ensures a.screen.Upload? && (e.ControlUsed? || e == TimerFired || e == PlayPausePressed) ==> r == a
    ensures a.screen.Showing? && e == TimerFired ==>
              r == AppState(a.settings, Showing(a.screen.image, Tick(a.screen.player, a.settings.frameCount)))
    ensures a.screen.Showing? && e == PlayPausePressed ==>
              r == AppState(a.settings, Showing(a.screen.image, Toggle(a.screen.player)))
    ensures a.screen.Showing? && e.ControlUsed? ==> r == a.(settings := Apply(e.control, a.settings))
    ensures e.ImageLoaded? ==>
              r == AppState(ImageDecoded(a.settings, e.src, e.width, e.height).0,
                            Showing(ImageState(e.src, e.width, e.height),
                                    if a.screen.Showing? then a.screen.player else Initial))
  {
    match e
    case ImageLoaded(src, width, height) =>
      var (settings', image) := ImageDecoded(a.settings, src, width, height);
      ImageDecodedKeepsValid(a.settings, src, width, height);
      var player := if a.screen.Showing? then a.screen.player else Initial;
      AppState(settings', Showing(image, player))
    case ResetPressed =>
      AppState(a.settings, Upload)
    case ControlUsed(c) =>
      if a.screen.Showing? then
        ApplyKeepsValid(c, a.settings);
        a.(settings := Apply(c, a.settings))
      else a
    case TimerFired =>
      if a.screen.Showing? then
        a.(screen := a.screen.(player := Tick(a.screen.player, a.settings.frameCount)))
      else a
    case PlayPausePressed =>
      if a.screen.Showing? then
        a.(screen := a.screen.(player := Toggle(a.screen.player)))
      else a
  }

  /** The state after a sequence of events. */
  function Run(a: AppState, events: seq<Event>): AppState
    requires ValidSettings(a.settings)
    decreases |events|
  {
    if |events| == 0 then a
    else
      var b := Step(a, events[0]);
      Run(b, events[1..])
  }

  /** The animation timer installed in a state: one only while the player
      is mounted and playing. */
  function TimerOf(a: AppState): (t: Timer)
    requires ValidSettings(a.settings)
    ensures t.Running? <==> a.screen.Showing? && a.screen.player.isPlaying
  {
    if a.screen.Showing? then TimerFor(a.screen.player.isPlaying, a.settings.fps) else Stopped
  }

  /** The draw effect in a state, given whether the canvas (with its context
      and container) is mounted and whether the image element has loaded.
      Nothing is drawn on the upload screen. */
  function DrawOf(a: AppState, canvasMounted: bool, imageLoaded: bool): (d: Option<DrawCall>)
    requires ValidSettings(a.settings)
    ensures d.Some? <==> a.screen.Showing? && canvasMounted && imageLoaded
    ensures d.Some? ==>
              && a.screen.Showing?
              && d.value.source == SliceRect(a.screen.image.width, a.screen.image.height,
                                             a.settings.frameCount, a.settings.orientation,
                                             a.screen.player.currentFrame)
              && d.value.canvasWidth == d.value.source.width
              && d.value.canvasHeight == d.value.source.height
              && d.value.cleared == Rect(0.0, 0.0, d.value.canvasWidth, d.value.canvasHeight)
              && d.value.dest == d.value.cleared
  {
    match a.screen
    case Upload => None
    case Showing(image, player) =>
      var surface := Surface(canvasMounted, canvasMounted, canvasMounted,
                             if imageLoaded then Some((image.width, image.height)) else None);
      DrawFrame(surface, a.settings, player.currentFrame)
  }

  /** Every event keeps the invariant. */
  lemma StepKeepsInv(a: AppState, e: Event)
    requires Inv(a)
    ensures Inv(Step(a, e))
  {
    if e.TimerFired? && a.screen.Showing? && a.screen.player.isPlaying {
      TickRestoresRange(a.screen.player, a.settings.frameCount);
    }
  }

  /** Every state reachable from a state satisfying the invariant satisfies
      it; in particular every state reachable from the start. */
  lemma {:induction false} RunKeepsInv(a: AppState, events: seq<Event>)
    requires Inv(a)
    ensures Inv(Run(a, events))
    decreases |events|
  {
    if |events| > 0 {
      StepKeepsInv(a, events[0]);
      RunKeepsInv(Step(a, events[0]), events[1..]);
    }
  }

  lemma StartSatisfiesInv()
    ensures Inv(Start)
    ensures Start.screen == Upload
  {
    DefaultSettingsValid();
  }

  /** Every state reachable from the start satisfies the invariant. */
  lemma ReachableInv(events: seq<Event>)
    ensures ValidSettings(Start.settings)
    ensures Inv(Run(Start, events))
  {
    StartSatisfiesInv();
    RunKeepsInv(Start, events);
  }

  /** Decoding an image on the upload screen shows that image, exactly as
      decoded, with a fresh player, and changes no setting but the
      orientation. */
  lemma LoadShowsFreshPlayer(a: AppState, src: string, width: nat, height: nat)
    requires ValidSettings(a.settings) && a.screen == Upload
    ensures var r := Step(a, ImageLoaded(src, width, height));
            && r.screen == Showing(ImageState(src, width, height), Initial)
            && r.screen.player.isPlaying && r.screen.player.currentFrame == 0
            && r.settings == a.settings.(orientation := DetectOrientation(width, height, a.settings.orientation))
  {
  }

  /** The reset button clears the image and keeps every setting. */
  lemma ResetKeepsSettings(a: AppState)
    requires ValidSettings(a.settings)
    ensures Step(a, ResetPressed) == AppState(a.settings, Upload)
  {
  }

  /** A settings change keeps the frame on show and the play/pause state,
      and the timer installed afterwards runs at the new frame rate (the
      interval is restarted only when the frame count or the frame rate
      changed; an orientation change keeps the running one). */
  lemma ControlKeepsPlayer(a: AppState, c: Control)
    requires ValidSettings(a.settings) && a.screen.Showing?
    ensures Step(a, ControlUsed(c)).screen == a.screen
    ensures TimerOf(Step(a, ControlUsed(c))) == TimerFor(a.screen.player.isPlaying, Apply(c, a.settings).fps)
  {
  }

  /** The play/pause button starts the timer when paused and stops it when
      playing; a started timer fires every `1000 / fps` milliseconds, and
      the frame on show stays put. */
  lemma PlayPauseFlipsTimer(a: AppState)
    requires ValidSettings(a.settings) && a.screen.Showing?
    ensures var b := Step(a, PlayPausePressed);
            && TimerOf(b).Running? != TimerOf(a).Running?
            && (TimerOf(b).Running? ==> TimerOf(b).period * (a.settings.fps as real) == 1000.0)
            && b.screen.player.currentFrame == a.screen.player.currentFrame
  {
  }

  /** While playing, a timer firing shows the next frame of the strip, or
      the first one after the last, and the badge follows. */
  lemma TimerShowsNextFrame(a: AppState)
    requires ValidSettings(a.settings) && a.screen.Showing? && a.screen.player.isPlaying
    requires a.screen.player.currentFrame < a.settings.frameCount
    ensures var c := a.screen.player.currentFrame;
            var b := Step(a, TimerFired);
            && b.screen.Showing? && b.screen.image == a.screen.image && b.settings == a.settings
            && b.screen.player.currentFrame == (if c + 1 < a.settings.frameCount then c + 1 else 0)
  {
    TickAdvancesOrWraps(a.screen.player, a.settings.frameCount);
  }

  /** A tick never changes the canvas size, so the output frame keeps its
      dimensions throughout the animation. */
  lemma TickKeepsCanvasSize(a: AppState, canvasMounted: bool, imageLoaded: bool)
    requires ValidSettings(a.settings) && a.screen.Showing? && canvasMounted && imageLoaded
    ensures var before := DrawOf(a, canvasMounted, imageLoaded).value;
            var after := DrawOf(Step(a, TimerFired), canvasMounted, imageLoaded).value;
            && after.canvasWidth == before.canvasWidth
            && after.canvasHeight == before.canvasHeight
            && after.dest == before.dest
  {
    var image := a.screen.image;
    var surface := Surface(true, true, true, Some((image.width, image.height)));
    CanvasSizeIndependentOfFrame(surface, a.settings, a.screen.player.currentFrame,
                                 Step(a, TimerFired).screen.player.currentFrame);
  }

  /** Lowering the frame count while the last frame is on show leaves the
      index one past the new last frame: the draw effect then samples a
      rectangle outside the image and the badge reads beyond the count,
      until the next tick, which wraps the index back into range. */
  lemma ShrinkLeavesFrameOutside(a: AppState)
    requires ValidSettings(a.settings) && a.screen.Showing?
    requires a.screen.image.width > 0 && a.screen.image.height > 0
    requires a.settings.frameCount > MinFrames
    requires a.screen.player.currentFrame == a.settings.frameCount - 1
    ensures var b := Step(a, ControlUsed(FewerFrames));
            var d := DrawOf(b, true, true).value;
            && b.screen.player.currentFrame == b.settings.frameCount
            && !InsideImage(d.source, a.screen.image.width, a.screen.image.height)
            && FrameBadge(b.screen.player, b.settings.frameCount).0 > b.settings.frameCount
    ensures var b := Step(a, ControlUsed(FewerFrames));
            a.screen.player.isPlaying ==>
              Step(b, TimerFired).screen.player.currentFrame < b.settings.frameCount
  {
    var b := Step(a, ControlUsed(FewerFrames));
    var image := a.screen.image;
    SliceInsideImageIff(image.width, image.height, b.settings.frameCount, b.settings.orientation,
                        b.screen.player.currentFrame);
  }
}
