/**
 The records shared by the zoetrope player, its settings panel and the
 application shell: strip orientation, the settings bundle, the decoded
 image descriptor, and an optional-value wrapper for JavaScript's
 `undefined` / `null`.
 */
module Types {

  /** A value that may be missing: an absent key in a partial record,
      `null` in a React ref, or a field the application never initialised. */
  datatype Option<+T> = None | Some(value: T)

  /** How the frames are laid out inside the strip image: stacked top to
      bottom (VERTICAL) or left to right (HORIZONTAL). */
  datatype Orientation = Vertical | Horizontal

  /** The settings record. `numStrips` is declared by the record type but is
      never initialised by the application and never read by the player, so
      it is carried as an optional value with no meaning attached to it. */
  datatype ZoetropeSettings = ZoetropeSettings(
    frameCount: int,
    fps: int,
    orientation: Orientation,
    numStrips: Option<int>
  )

  /** A decoded image: its data URL and its pixel dimensions. */
  datatype ImageState = ImageState(src: string, width: nat, height: nat)

  /** The ranges the settings panel keeps the settings in. */
  const MinFrames: int := 2
  const MaxFrames: int := 60
  const MinFps: int := 1
  const MaxFps: int := 24

  /** Settings that the player can work with: a frame count the panel can
      reach and a frame rate the slider can emit. */
  predicate ValidSettings(s: ZoetropeSettings)
  {
    && MinFrames <= s.frameCount <= MaxFrames
    && MinFps <= s.fps <= MaxFps
  }
}
