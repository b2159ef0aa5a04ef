/**
 The settings panel: each control emits a partial settings record that the
 application merges into the current settings.
 */
module Controls {
  import opened Types
  import opened Settings

  /** The panel's controls. `FpsSlider` carries the position the user
      dragged the frame-rate slider to. */
  datatype Control =
    | FewerFrames
    | MoreFrames
    | FpsSlider(position: int)
    | ChooseVertical
    | ChooseHorizontal

  /** The minus button's new frame count: one fewer, never below two. */
  function FewerFramesCount(frameCount: int): (r: int)
    ensures r >= MinFrames
    ensures r == frameCount - 1 || r == MinFrames
    ensures frameCount > MinFrames ==> r == frameCount - 1
    ensures frameCount <= MinFrames ==> r == MinFrames
  {
    if frameCount - 1 > MinFrames then frameCount - 1 else MinFrames
  }

  /** The plus button's new frame count: one more, never above sixty. */
  function MoreFramesCount(frameCount: int): (r: int)
    ensures r <= MaxFrames
    ensures r == frameCount + 1 || r == MaxFrames
    ensures frameCount < MaxFrames ==> r == frameCount + 1
    ensures frameCount >= MaxFrames ==> r == MaxFrames
  {
    if frameCount + 1 < MaxFrames then frameCount + 1 else MaxFrames
  }

  /** The value the frame-rate slider reports. A range input with `min` 1,
      `max` 24 and `step` 1 only takes integer values in that range, so a
      position outside it is held at the nearer end; `parseInt` of the
      reported integer is that integer. */
  function SliderFps(position: int): (fps: int)
    ensures MinFps <= fps <= MaxFps
    ensures MinFps <= position <= MaxFps ==> fps == position
    ensures position < MinFps ==> fps == MinFps
    ensures position > MaxFps ==> fps == MaxFps
  {
    if position < MinFps then MinFps
    else if position > MaxFps then MaxFps
    else position
  }

  /** The one field each control writes. */
  function Target(c: Control): Field
  {
    match c
    case FewerFrames => FrameCountField
    case MoreFrames => FrameCountField
    case FpsSlider(_) => FpsField
    case ChooseVertical => OrientationField
    case ChooseHorizontal => OrientationField
  }

  /** The partial record a control hands to `onUpdate`, given the settings
      the panel is showing. */
  function Emit(c: Control, s: ZoetropeSettings): (p: SettingsPatch)
    ensures Fields(p) == {Target(c)}
  {
    match c
    case FewerFrames => EmptyPatch.(frameCount := Some(FewerFramesCount(s.frameCount)))
    case MoreFrames => EmptyPatch.(frameCount := Some(MoreFramesCount(s.frameCount)))
    case FpsSlider(position) => EmptyPatch.(fps := Some(SliderFps(position)))
    case ChooseVertical => EmptyPatch.(orientation := Some(Vertical))
    case ChooseHorizontal => EmptyPatch.(orientation := Some(Horizontal))
  }

  /** Using a control and merging what it emits: the settings after the
      click. */
  function Apply(c: Control, s: ZoetropeSettings): (r: ZoetropeSettings)
    ensures forall f: Field :: f != Target(c) ==> Agree(r, s, f)
    ensures c == FewerFrames ==> r.frameCount == FewerFramesCount(s.frameCount)
    ensures c == MoreFrames ==> r.frameCount == MoreFramesCount(s.frameCount)
    ensures c.FpsSlider? ==> r.fps == SliderFps(c.position)
    ensures c == ChooseVertical ==> r.orientation == Vertical
    ensures c == ChooseHorizontal ==> r.orientation == Horizontal
  {
    var p := Emit(c, s);
    assert Target(c) in Fields(p);
    UpdateSettings(s, p)
  }

  /** Two is a fixed point of the minus button, sixty of the plus button. */
  lemma FrameCountFixedPoints()
    ensures FewerFramesCount(MinFrames) == MinFrames
    ensures MoreFramesCount(MaxFrames) == MaxFrames
  {
  }

  /** Below the upper bound, plus then minus restores the frame count. */
  lemma MoreThenFewer(frameCount: int)
    requires MinFrames <= frameCount < MaxFrames
    ensures FewerFramesCount(MoreFramesCount(frameCount)) == frameCount
  {
  }

  /** Above the lower bound, minus then plus restores the frame count. */
  lemma FewerThenMore(frameCount: int)
    requires MinFrames < frameCount <= MaxFrames
    ensures MoreFramesCount(FewerFramesCount(frameCount)) == frameCount
  {
  }

  /** Every control keeps the settings within the panel's ranges. */
  lemma ApplyKeepsValid(c: Control, s: ZoetropeSettings)
    requires ValidSettings(s)
    ensures ValidSettings(Apply(c, s))
  {
    assert Agree(Apply(c, s), s, FpsField) || c.FpsSlider?;
    assert Agree(Apply(c, s), s, FrameCountField) || c == FewerFrames || c == MoreFrames;
  }

  /** A control never writes `numStrips`. */
  lemma ControlsLeaveNumStrips(c: Control, s: ZoetropeSettings)
    ensures Apply(c, s).numStrips == s.numStrips
  {
    assert Agree(Apply(c, s), s, NumStripsField);
  }
}
