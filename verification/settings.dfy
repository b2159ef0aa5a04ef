/**
 The settings logic of the application shell: the default settings, the
 partial-record merge behind `updateSettings`, and the orientation guess
 made when a new image has been decoded.
 */
module Settings {
  import opened Types

  /** The settings the application starts with: twelve frames at twelve
      frames per second, vertical strip, `numStrips` left undefined. */
  const DefaultSettings: ZoetropeSettings := ZoetropeSettings(12, 12, Vertical, None)

  /** A partial settings record: a field is present (`Some`) or absent. */
  datatype SettingsPatch = SettingsPatch(
    frameCount: Option<int>,
    fps: Option<int>,
    orientation: Option<Orientation>,
    numStrips: Option<int>
  )

  const EmptyPatch: SettingsPatch := SettingsPatch(None, None, None, None)

  /** The fields of the settings record. */
  datatype Field = FrameCountField | FpsField | OrientationField | NumStripsField

  /** The fields present in a patch. */
  function Fields(p: SettingsPatch): (fs: set<Field>)
    ensures FrameCountField in fs <==> p.frameCount.Some?
    ensures FpsField in fs <==> p.fps.Some?
    ensures OrientationField in fs <==> p.orientation.Some?
    ensures NumStripsField in fs <==> p.numStrips.Some?
  {
    (if p.frameCount.Some? then {FrameCountField} else {})
    + (if p.fps.Some? then {FpsField} else {})
    + (if p.orientation.Some? then {OrientationField} else {})
    + (if p.numStrips.Some? then {NumStripsField} else {})
  }

  /** Two settings records hold the same value in field `f`. */
  predicate Agree(a: ZoetropeSettings, b: ZoetropeSettings, f: Field)
  {
    match f
    case FrameCountField => a.frameCount == b.frameCount
    case FpsField => a.fps == b.fps
    case OrientationField => a.orientation == b.orientation
    case NumStripsField => a.numStrips == b.numStrips
  }

  /** The patch's value for field `f` is the one held by `s`. */
  predicate Holds(s: ZoetropeSettings, p: SettingsPatch, f: Field)
  {
    match f
    case FrameCountField => p.frameCount == Some(s.frameCount)
    case FpsField => p.fps == Some(s.fps)
    case OrientationField => p.orientation == Some(s.orientation)
    case NumStripsField => p.numStrips.Some? && s.numStrips == p.numStrips
  }

  /** The field's value if present, else the old one. */
  function Override<T>(previous: T, update: Option<T>): T
  {
    match update
    case Some(v) => v
    case None => previous
  }

  /** `{ ...prev, ...patch }`: the fields present in the patch replace the
      old values, the absent ones keep them. */
  function UpdateSettings(s: ZoetropeSettings, p: SettingsPatch): (r: ZoetropeSettings)
    ensures forall f: Field :: f in Fields(p) ==> Holds(r, p, f)
    ensures forall f: Field :: f !in Fields(p) ==> Agree(r, s, f)
  {
    ZoetropeSettings(
      Override(s.frameCount, p.frameCount),
      Override(s.fps, p.fps),
      Override(s.orientation, p.orientation),
      if p.numStrips.Some? then p.numStrips else s.numStrips
    )
  }

  /** The patch that applies `q` after `p`: `q`'s fields win. */
  function Then(p: SettingsPatch, q: SettingsPatch): (pq: SettingsPatch)
    ensures Fields(pq) == Fields(p) + Fields(q)
  {
    SettingsPatch(
      if q.frameCount.Some? then q.frameCount else p.frameCount,
      if q.fps.Some? then q.fps else p.fps,
      if q.orientation.Some? then q.orientation else p.orientation,
      if q.numStrips.Some? then q.numStrips else p.numStrips
    )
  }

  /** Merging the same patch twice is merging it once. */
  lemma UpdateIdempotent(s: ZoetropeSettings, p: SettingsPatch)
    ensures UpdateSettings(UpdateSettings(s, p), p) == UpdateSettings(s, p)
  {
  }

  /** Merging an empty patch changes nothing. */
  lemma UpdateEmpty(s: ZoetropeSettings)
    ensures UpdateSettings(s, EmptyPatch) == s
  {
  }

  /** Two successive merges are one merge of the combined patch, where the
      later write wins field by field. */
  lemma UpdateThen(s: ZoetropeSettings, p: SettingsPatch, q: SettingsPatch)
    ensures UpdateSettings(UpdateSettings(s, p), q) == UpdateSettings(s, Then(p, q))
  {
  }

  /** Patches on disjoint fields commute. */
  lemma UpdateCommutesOnDisjointFields(s: ZoetropeSettings, p: SettingsPatch, q: SettingsPatch)
    requires Fields(p) !! Fields(q)
    ensures UpdateSettings(UpdateSettings(s, p), q) == UpdateSettings(UpdateSettings(s, q), p)
  {
    assert FrameCountField !in Fields(p) || FrameCountField !in Fields(q);
    assert FpsField !in Fields(p) || FpsField !in Fields(q);
    assert OrientationField !in Fields(p) || OrientationField !in Fields(q);
    assert NumStripsField !in Fields(p) || NumStripsField !in Fields(q);
  }

  /** The image is clearly taller than a vertical strip's frame would be
      wide: more than twice as high as wide. */
  predicate ClearlyTall(width: nat, height: nat)
  {
    height > 2 * width
  }

  /** More than twice as wide as high. */
  predicate ClearlyWide(width: nat, height: nat)
  {
    width > 2 * height
  }

  /** The orientation guessed for a newly decoded image: VERTICAL when it is
      clearly tall, HORIZONTAL when it is clearly wide, otherwise the
      orientation chosen before. */
  function DetectOrientation(width: nat, height: nat, previous: Orientation): (o: Orientation)
    ensures ClearlyTall(width, height) ==> o == Vertical
    ensures ClearlyWide(width, height) ==> o == Horizontal
    ensures o != previous ==> ClearlyTall(width, height) || ClearlyWide(width, height)
  {
    if height > 2 * width then Vertical
    else if width > 2 * height then Horizontal
    else previous
  }

  /** The other orientation. */
  function Flip(o: Orientation): Orientation
  {
    if o == Vertical then Horizontal else Vertical
  }

  /** No image is both clearly tall and clearly wide, so the two tests of
      the detection never compete. */
  lemma TallAndWideExclusive(width: nat, height: nat)
    ensures !(ClearlyTall(width, height) && ClearlyWide(width, height))
  {
  }

  /** Detection treats the axes symmetrically: the image rotated a quarter
      turn gets the other orientation, given the other previous one. */
  lemma DetectSymmetric(width: nat, height: nat, previous: Orientation)
    ensures DetectOrientation(height, width, Flip(previous)) == Flip(DetectOrientation(width, height, previous))
  {
    TallAndWideExclusive(width, height);
  }

  /** Detecting again from the detected orientation changes nothing. */
  lemma DetectIdempotent(width: nat, height: nat, previous: Orientation)
    ensures DetectOrientation(width, height, DetectOrientation(width, height, previous))
            == DetectOrientation(width, height, previous)
  {
  }

  /** The previous orientation matters only for images that are neither
      clearly tall nor clearly wide. */
  lemma DetectIgnoresPreviousIffDecisive(width: nat, height: nat)
    ensures (DetectOrientation(width, height, Vertical) == DetectOrientation(width, height, Horizontal))
            <==> (ClearlyTall(width, height) || ClearlyWide(width, height))
  {
  }

  /** What the image `onload` handler stores once an image has been decoded:
      the settings with the detected orientation, and the image state. */
  function ImageDecoded(s: ZoetropeSettings, src: string, width: nat, height: nat): (r: (ZoetropeSettings, ImageState))
    ensures Agree(r.0, s, FrameCountField) && Agree(r.0, s, FpsField) && Agree(r.0, s, NumStripsField)
    ensures r.0.orientation == DetectOrientation(width, height, s.orientation)
    ensures r.1.src == src && r.1.width == width && r.1.height == height
  {
    (s.(orientation := DetectOrientation(width, height, s.orientation)), ImageState(src, width, height))
  }

  /** Loading an image is a merge of a patch touching only the orientation. */
  lemma ImageDecodedIsOrientationPatch(s: ZoetropeSettings, src: string, width: nat, height: nat)
    ensures ImageDecoded(s, src, width, height).0
            == UpdateSettings(s, EmptyPatch.(orientation := Some(DetectOrientation(width, height, s.orientation))))
  {
  }

  /** The default settings are ones the player can work with. */
  lemma DefaultSettingsValid()
    ensures ValidSettings(DefaultSettings)
    ensures DefaultSettings.numStrips.None?
  {
  }

  /** Loading an image keeps settings valid. */
  lemma ImageDecodedKeepsValid(s: ZoetropeSettings, src: string, width: nat, height: nat)
    requires ValidSettings(s)
    ensures ValidSettings(ImageDecoded(s, src, width, height).0)
  {
  }
}
