# Digital zoetrope player — Dafny model

This project models the core of a browser "digital zoetrope". The user uploads a strip image. The player cuts the image into `frameCount` equal slices and shows them one after the other to animate it.

The model covers four parts:

- **Slice geometry** (`Geometry`, `geometry.dfy`). Given the image size, the frame count, the orientation and the frame index, it computes the source rectangle of the frame. A VERTICAL strip is cut along its height and a HORIZONTAL strip along its width. The canvas takes the size of one slice. The whole slice is drawn onto the whole canvas. Divisions are exact, over `real`.
- **Playback state machine** (`Playback`, `playback.dfy`). It holds the play/pause flag and the frame index. A timer tick stores `(prev + 1) % frameCount`, and only while playing. The play/pause button flips the flag. The module also gives the timer each state installs and the "FRAME n/N" badge.
- **Settings logic** (`Settings`, `settings.dfy`; `Controls`, `controls.dfy`). It covers the default settings and the partial-record merge behind `updateSettings`. It covers the orientation guess made when an image is decoded. It covers the settings panel's controls: the clamped minus/plus buttons for the frame count, the 1–24 fps slider and the two orientation buttons.
- **The application as a whole** (`Session`, `session.dfy`). This is an event-driven state machine over the upload screen and the player screen. It has an invariant that every reachable state keeps.

The records come from `types.ts` (`Types`, `types.dfy`). `numStrips` is declared by the settings type. The application never initialises it and the player never reads it. So the model carries it as an optional value (`None` standing for `undefined`) and gives it no geometric meaning.

Three facts about the code shape the model:

- **Lowering the frame count does not wrap the index.** A settings change re-runs the draw effect with the index it already holds (components/ZoetropePlayer.tsx:90). Only the next tick stores `(prev + 1) % frameCount` (components/ZoetropePlayer.tsx:38). When the stored index is at or past the new count, for instance when the last frame was on show, the sampled rectangle lies outside the image and the badge reads beyond the count until then (`Session.ShrinkLeavesFrameOutside`). A paused player keeps that index until play is pressed and a tick fires. So "index below frame count" is a precondition of the geometry, not an invariant. The invariant that does hold is "index below 60" (`Session.Inv`).
- **`numStrips` is declared but never read** (types.ts). No code composites several strips, offers a pan/zoom/rotate viewport or exports an animated image.
- **`updateSettings` merges a partial record** into the previous settings (App.tsx:53-55), and the model does the same.

## Model

| member | source | states |
|---|---|---|
| Geometry.SliceRect | components/ZoetropePlayer.tsx:53-67 | along the split axis the slice is one `frameCount`-th of the image and starts at `frame` slice-lengths; across it the slice spans the whole image from 0 |
| Geometry.SliceSizeIndependentOfFrame | components/ZoetropePlayer.tsx:55-67 | the slice size never depends on which frame is shown |
| Geometry.ConsecutiveSlicesAdjacent | components/ZoetropePlayer.tsx:55-67 | frame `f+1`'s slice starts exactly where frame `f`'s ends, over the same band across the split axis |
| Geometry.SliceInsideImageIff | components/ZoetropePlayer.tsx:55-67 | for a non-empty image, the source rectangle lies inside `[0,W]x[0,H]` if and only if `frame < frameCount` |
| Geometry.SlicesDisjoint | components/ZoetropePlayer.tsx:55-67 | slices of two different frames share no point of the split axis |
| Geometry.SlicesCover | components/ZoetropePlayer.tsx:55-67 | every point of the image's split axis lies in the slice of some frame below `frameCount` |
| Geometry.CoveredLengthReachesSlice | components/ZoetropePlayer.tsx:55-67 | the slices of frames `0..k-1` laid end to end reach exactly the start of frame `k` |
| Geometry.SlicesTileSplitAxis | components/ZoetropePlayer.tsx:55-67 | all `frameCount` slices laid end to end span exactly the image's extent along the split axis |
| Geometry.DrawFrame | components/ZoetropePlayer.tsx:45-88 | nothing is drawn if and only if the canvas, context, image or container is missing; otherwise the canvas takes the slice size and the whole canvas is cleared and receives the whole slice |
| Geometry.CanvasSizeIndependentOfFrame | components/ZoetropePlayer.tsx:69-88 | the canvas size and the destination rectangle are the same for every frame index |
| Geometry.VerticalStripExample | components/ZoetropePlayer.tsx:55-60 | a 120x1200 strip of 12 frames: frame 0 is (0,0,120,100) and frame 11 is (0,1100,120,100) |
| Geometry.HorizontalStripExample | components/ZoetropePlayer.tsx:61-67 | a 1200x100 strip of 12 frames: frame 5 is (500,0,100,100) |
| Playback.Tick | components/ZoetropePlayer.tsx:34-42 | a paused player does not move; a playing one stays playing with its index in `[0, frameCount)` |
| Playback.TickAdvancesOrWraps | components/ZoetropePlayer.tsx:38 | from an in-range index a tick moves to the next frame, or to frame 0 from the last one |
| Playback.TickCongruent | components/ZoetropePlayer.tsx:38 | from any index, even one beyond a lowered frame count, a tick lands on a frame congruent to the next index modulo `frameCount` |
| Playback.TickRestoresRange | components/ZoetropePlayer.tsx:38 | one tick while playing puts the index in `[0, frameCount)` whatever it was |
| Playback.Toggle | components/ZoetropePlayer.tsx:114 | the play/pause button flips `isPlaying` and keeps the frame index |
| Playback.ToggleTwice | components/ZoetropePlayer.tsx:114 | pressing play/pause twice restores the state |
| Playback.TimerFor | components/ZoetropePlayer.tsx:34-42 | a timer runs if and only if playing, with period `1000/fps` |
| Playback.BadgeCountsUpAndWraps | components/ZoetropePlayer.tsx:38-107 | while playing, each tick raises the badge number by one, and after the last frame it reads 1 again |
| Playback.FrameBadge | components/ZoetropePlayer.tsx:107 | the badge shows the one-based number `currentFrame + 1` over the total `frameCount`, and that number lies in `[1, frameCount]` if and only if the index is in range |
| Playback.PausedTicksChangeNothing | components/ZoetropePlayer.tsx:35 | any number of ticks leaves a paused player unchanged |
| Playback.TicksAdvance | components/ZoetropePlayer.tsx:37-39 | from an in-range index, `k` ticks while playing move the index `k` places around the cycle |
| Playback.TicksReturnIff | components/ZoetropePlayer.tsx:38 | from an in-range index, `k` ticks restore the state if and only if `frameCount` divides `k` |
| Playback.FullCycle | components/ZoetropePlayer.tsx:38 | `frameCount` ticks restore the state and no smaller positive number of ticks does |
| Settings.UpdateSettings | App.tsx:53-55 | fields present in the partial record take its values; absent fields keep the old values |
| Settings.UpdateIdempotent | App.tsx:53-55 | merging the same partial record twice equals merging it once |
| Settings.UpdateEmpty | App.tsx:53-55 | merging an empty partial record changes nothing |
| Settings.UpdateThen | App.tsx:53-55 | two merges equal one merge of the combined record, the later write winning per field |
| Settings.UpdateCommutesOnDisjointFields | App.tsx:53-55 | partial records touching disjoint fields can be merged in either order |
| Settings.DetectOrientation | App.tsx:28-39 | a clearly tall image (`height > 2*width`) is VERTICAL, a clearly wide one HORIZONTAL; the previous orientation changes only for such images |
| Settings.TallAndWideExclusive | App.tsx:32-38 | no image is both clearly tall and clearly wide, so the two tests never compete |
| Settings.DetectSymmetric | App.tsx:28-39 | swapping width and height, and the previous orientation, swaps the detected orientation |
| Settings.DetectIdempotent | App.tsx:28-39 | detecting again from the detected orientation changes nothing |
| Settings.DetectIgnoresPreviousIffDecisive | App.tsx:28-39 | the previous orientation is irrelevant if and only if the image is clearly tall or clearly wide |
| Settings.ImageDecoded | App.tsx:24-46 | loading an image changes only the orientation, to the detected one, and stores exactly the decoded source, width and height |
| Settings.ImageDecodedIsOrientationPatch | App.tsx:41 | loading an image is a merge of a partial record holding only the orientation |
| Settings.DefaultSettingsValid | App.tsx:13-17 | the default settings (12 frames, 12 fps, VERTICAL, `numStrips` undefined) lie in the panel's ranges |
| Settings.ImageDecodedKeepsValid | App.tsx:41 | loading an image keeps the settings in the panel's ranges |
| Controls.FewerFramesCount | components/Controls.tsx:27 | the minus button gives one fewer frame, but never fewer than 2 |
| Controls.MoreFramesCount | components/Controls.tsx:37 | the plus button gives one more frame, but never more than 60 |
| Controls.SliderFps | components/Controls.tsx:58-64 | the slider emits an integer in `[1, 24]`: the requested position when it is in range, else the nearer end |
| Controls.Emit | components/Controls.tsx:27-90 | each control emits a partial record with exactly one field |
| Controls.Apply | components/Controls.tsx:27-90 | after merging a control's record every other field is unchanged, and the written field has the control's value |
| Controls.FrameCountFixedPoints | components/Controls.tsx:27-37 | 2 is a fixed point of the minus button and 60 of the plus button |
| Controls.MoreThenFewer | components/Controls.tsx:27-37 | for a frame count in `[2, 59]`, plus then minus restores it |
| Controls.FewerThenMore | components/Controls.tsx:27-37 | for a frame count in `[3, 60]`, minus then plus restores it |
| Controls.ApplyKeepsValid | components/Controls.tsx:27-64 | every control keeps the frame count in `[2, 60]` and the fps in `[1, 24]` |
| Controls.ControlsLeaveNumStrips | components/Controls.tsx:27-90 | no control writes `numStrips` |
| Session.Step | App.tsx:19-89 | every event keeps the settings in range; on the upload screen controls, ticks and play/pause change nothing; on the player screen a tick replaces the player by its `Tick` and play/pause by its `Toggle`, keeping the image and the settings, and a control replaces the settings by its `Apply`, keeping the screen; a decoded image shows exactly that image, sets the detected orientation, and keeps a mounted player or mounts `Initial` |
| Session.TimerOf | components/ZoetropePlayer.tsx:34-42 | a timer runs if and only if the player is mounted and playing |
| Session.DrawOf | components/ZoetropePlayer.tsx:45-90 | a frame is drawn if and only if the player is mounted, the canvas is mounted and the image element has loaded; what is drawn is the slice of the shown image for the current settings and frame index, on a canvas of that slice's size, which is cleared whole and receives the whole slice |
| Session.PlayPauseFlipsTimer | components/ZoetropePlayer.tsx:34-42 | the play/pause button starts the timer when paused (period `1000/fps`) and stops it when playing, keeping the frame on show |
| Session.TimerShowsNextFrame | components/ZoetropePlayer.tsx:37-39 | while playing from an in-range index, a timer firing shows the next frame, or the first after the last, with the same image and settings |
| Session.StepKeepsInv | components/ZoetropePlayer.tsx:38 | every event keeps the settings in range and the frame index below 60 |
| Session.RunKeepsInv | components/ZoetropePlayer.tsx:38 | any sequence of events keeps that invariant |
| Session.StartSatisfiesInv | App.tsx:13-17 | the application starts on the upload screen in a state satisfying the invariant |
| Session.ReachableInv | components/Controls.tsx:27-64 | every state reachable from the start satisfies the invariant |
| Session.LoadShowsFreshPlayer | App.tsx:41-46 | decoding an image on the upload screen shows exactly that image with a player playing from frame 0, and changes only the orientation setting |
| Session.ResetKeepsSettings | App.tsx:57-59 | the reset button returns to the upload screen and keeps every setting |
| Session.ControlKeepsPlayer | components/ZoetropePlayer.tsx:34-42 | a settings change keeps the frame index and play state, and the timer installed afterwards uses the new fps |
| Session.TickKeepsCanvasSize | components/ZoetropePlayer.tsx:69-71 | a tick never changes the canvas size or the destination rectangle |
| Session.ShrinkLeavesFrameOutside | components/ZoetropePlayer.tsx:38-90 | lowering the frame count while the last frame is shown leaves the source rectangle outside the image and the badge beyond the count, until the next tick brings the index back into range |

## Left out

- components/ImageCropper.tsx: cropping and rotating use floating-point trigonometry, pixel buffers and a third-party cropper. They are outside this model.
- components/UploadZone.tsx and the `FileReader`/`Image` decoding in App.tsx: these are file and DOM I/O. The model only takes their result, a data-URL string with the decoded width and height (`Session.ImageLoaded`).
- components/Header.tsx, components/EducationTip.tsx and all markup and styling: these are static UI.
- Real time: the `setInterval` timing and the effect cleanup are not modelled. The timer is an abstract tick event. Its period `1000/fps` is only recorded (`Playback.TimerFor`).
- The image element ref (components/ZoetropePlayer.tsx:24-31) becomes a boolean "image loaded" input to the draw effect. The draw is modelled as a function of the state. So the fact that the ref's `onload` does not itself trigger a redraw is not modelled.
- Session.DrawOf: while a second image is still decoding after being shown, the source's draw effect re-runs with the image element ref still holding the first image's element, whose replacement's `onload` (components/ZoetropePlayer.tsx:28-30) has not fired yet. It therefore draws the first image's slice at the first image's size (components/ZoetropePlayer.tsx:48, 57-65). The model draws the slice of the image held in the state, or nothing when that image has not loaded; it does not keep the previous image element.
- Browser behaviour: the canvas truncates a fractional `width`/`height` to an integer, and `drawImage` resamples pixels. Neither is written in the source. Geometry uses exact `real` division rather than IEEE-754 doubles.
- Multi-strip compositing, the pan/zoom/rotate viewport and animated-image export: none of them is implemented by the code. `numStrips` is carried with no meaning.
- Settings.UpdateSettings: a JavaScript partial record may hold a key whose value is `undefined`, and the spread would then write `undefined`. This case is not modelled, because no control emits such a record; a field is either present or absent.
- Controls: the minus and plus buttons read `settings.frameCount` from the last render, not from the pending state. Two clicks within one render are not modelled, because React re-renders between clicks.
- Session.Step: requires settings within the panel's ranges. This rules out a frame count of 0 or an fps of 0, where JavaScript would divide by zero. `Session.ReachableInv` shows that every reachable state meets this requirement.
- Session.Step: a decoded image can arrive while the player screen is shown. This happens when a second file is chosen, by picker or by drop (components/UploadZone.tsx:9-24), before the first has finished decoding (App.tsx:20-50). The model keeps the mounted player's state in that case, as React would.
- Session.Step: the fallback orientation of a decoded image is taken from the settings current when the image arrives. The source takes it from the `settings` captured when the file was chosen (App.tsx:29). The two differ only for a second file chosen before the first finished decoding, when the first image's detected orientation, or a later panel change, is then overwritten by the older value. The model does not keep the settings of each pending file.
