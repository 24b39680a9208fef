# Hand skeleton frame step

A Dafny model of the one piece of original logic in this webcam hand-tracking demo: the
per-frame `render` step in `src/index.js`. On every display frame the step checks whether
the video is still playing. It asks the gesture recognizer for landmarks. If at least one hand
was found, it turns the first hand's 21 landmarks into five polylines. Each polyline follows one
chain of the fixed connector table, from the wrist along one finger. The polylines go into a
group named `handGroup`. The step removes any earlier `handGroup` from the three.js scene and
adds the new one. Then it renders and schedules itself for the next frame.

Two modules:

- `SceneGraph` (`scene.dfy`) models the scene as a class holding its direct children as a
  sequence. Grid helpers, axes helpers and groups each carry a name. `Scene.RemoveNamed` is
  the `traverse`/`remove` loop, proved against the function `Without`. `Scene.Add` is
  `scene.add`.
- `HandSkeleton` (`hand_skeleton.dfy`) holds the connector table and the nested loops that
  build the lines (`BuildHandLines`). `FrameStep` specifies one call of `render` as a
  function of the scene's children, the video status and the detection result. `Render` is
  the imperative step proved against it. `Run` is the self-rescheduling loop over a sequence
  of ticks. A call of `render` ends in one of three ways:
  - `Rescheduled`: the scene was drawn and the next frame requested.
  - `Stopped`: the paused/ended guard returned early.
  - `Faulted`: a connector index had no landmark, so reading `.x` threw.

The scene invariant `WellFormed` says three things. There is at most one `handGroup`. If one
exists, it is the last child. Every `handGroup` has the connector table's shape. Every frame
preserves the invariant, and so does every run of frames.

The code asks for up to two hands (src/index.js:70), draws only the first, and builds a fresh
group on every frame with a detection.

## Model

| member | source | states |
|---|---|---|
| SceneGraph.Scene.constructor | src/index.js:46 | a new scene has no children |
| SceneGraph.Scene.Add | src/index.js:123 | adding a child appends it after all existing children |
| SceneGraph.Scene.RemoveNamed | src/index.js:107-111 | the in-place removal loop leaves exactly `Without(old children, name)`: every child with that name is gone, and the others remain in order |
| SceneGraph.Without | src/index.js:107-111 | after removal by name, no remaining child has the name, and the number removed is exactly the number of children that had it |
| SceneGraph.CountNamed | src/index.js:107-111 | the count of children with a name is zero exactly when no child has that name |
| SceneGraph.WithoutKeepsOthers | src/index.js:107-111 | a child remains after removal by name exactly when it was in the scene and has another name |
| SceneGraph.WithoutLastNamed | src/index.js:107-111 | when the only child with the name is the last one, removal drops exactly that last child |
| SceneGraph.WithoutIdempotent | src/index.js:107-111 | a second removal by the same name removes nothing more |
| HandSkeleton.ConnectorTableShape | src/index.js:73-79 | the table has five chains of five indices; each starts at the wrist (0), chain i then lists 4i+1..4i+4, and every index is below 21 |
| HandSkeleton.CoversIffFullHand | src/index.js:112-118 | every `landmarks[connector[j]]` lookup is in bounds exactly when the hand has at least 21 landmarks |
| HandSkeleton.ToVector3 | src/index.js:117 | the new point carries the landmark's x, y and z unchanged |
| HandSkeleton.ChainPoints | src/index.js:114-118 | a chain's polyline has one point per connector index |
| HandSkeleton.ChainPointsAt | src/index.js:115-118 | point j of a chain's polyline is landmark `chain[j]`'s (x, y, z), copied verbatim |
| HandSkeleton.HandLines | src/index.js:112-122 | the group's lines have the connector table's shape: one line per chain, and as many points per line as the chain has indices |
| HandSkeleton.HandLinesAt | src/index.js:112-122 | the group has `connectors.length` lines; line i has `connectors[i].length` points, and point j is landmark `connectors[i][j]` in order |
| HandSkeleton.BuildHandLines | src/index.js:112-122 | the nested loops succeed exactly when every connector index is in bounds, and then return the specified lines |
| HandSkeleton.FrameStep | src/index.js:100-128 | one call of `render`: it stops exactly when the video is paused or ended; it reschedules exactly when the video plays and the first hand, if any, has all 21 landmarks; a stopped frame or one with no hand leaves the scene as it was |
| HandSkeleton.Render | src/index.js:100-128 | one call of `render` leaves the scene and outcome that `FrameStep` specifies |
| HandSkeleton.SetUpScene | src/index.js:46-52 | the scene starts as a grid helper followed by an axes helper of size 5 |
| HandSkeleton.InitialChildrenWellFormed | src/index.js:48-52 | the initial scene holds no `handGroup` and satisfies the scene invariant |
| HandSkeleton.WellFormedRemoval | src/index.js:107-111 | on a well-formed scene, removing every `handGroup` drops only the last child, and only when it is the `handGroup`, so the removal and three.js's `traverse` agree |
| HandSkeleton.PausedOrEndedStops | src/index.js:101 | a paused or ended video returns before detecting, drawing or rescheduling, and the scene stays as it was |
| HandSkeleton.NoHandKeepsScene | src/index.js:103-127 | a frame with no detected hand leaves the scene unchanged, keeping the previous pose, and the loop continues |
| HandSkeleton.DetectedHandReplacesGroup | src/index.js:103-123 | after a frame with a full first hand, the scene has exactly one `handGroup`; it is the last child, drawn from that hand, and every other child is kept |
| HandSkeleton.ShortHandFaults | src/index.js:107-118 | a first hand with fewer than 21 landmarks ends the loop with earlier groups removed and no new group added |
| HandSkeleton.OnlyFirstHandDrawn | src/index.js:102-104 | hands after the first make no difference to the frame |
| HandSkeleton.FrameKeepsOtherChildren | src/index.js:105-123 | no frame removes, reorders or changes a child not named `handGroup` |
| HandSkeleton.FrameKeepsWellFormed | src/index.js:105-123 | every frame preserves the scene invariant: at most one `handGroup`, it is last, and it has the connector shape |
| HandSkeleton.SameDetectionTwice | src/index.js:103-123 | for any inputs, a second frame with the same video status and detection gives the same scene and outcome as the first |
| HandSkeleton.Run | src/index.js:100-129 | the loop is still rescheduled after a run exactly when every tick found the video playing and a complete first hand or none; it never stops while every tick found the video playing |
| HandSkeleton.HaltIsFinal | src/index.js:100-127 | once a call stops or faults, later ticks run no frame and change nothing |
| HandSkeleton.RunKeepsWellFormed | src/index.js:100-129 | any run of frames from a well-formed scene ends in a well-formed scene |
| HandSkeleton.RunKeepsOtherChildren | src/index.js:100-129 | over any run of frames, the grid, the axes and every other child not named `handGroup` stay unchanged and in order |

## Left out

- Renderer, camera, orbit controls, resize handling and canvas size (src/index.js:21-44, 81-86): this is three.js configuration with no logic to state. `renderer.render` and `stats.update` are part of the `Rescheduled` outcome.
- Stats and Clock (src/index.js:54-58): profiling and timing only.
- Creating the recognizer, `setOptions` and `recognizeForVideo` (src/index.js:60-71, 90, 97, 102): this is a foreign machine-learning model. A detection result is an arbitrary input, and the timestamp from `Date.now()` is not modelled.
- `getUserMedia`, the video events and `play()` (src/index.js:91-99): browser I/O. The video is reduced to its `paused` and `ended` flags per tick.
- `requestAnimationFrame` timing (src/index.js:127): modelled only as the `Rescheduled` outcome and as `Run` processing one tick per call.
- Landmark coordinates are floating point in the source. They are only copied, so the model uses `real` and never computes on them. The `Vector3` constructor is modelled as a field-by-field copy.
- The line material and the `BufferGeometry` and `Line` internals: a line is its sequence of points.
- Scene.RemoveNamed: three.js `traverse` visits descendants while the callback removes from the child list it is iterating over. The model removes every direct child with the name instead. The two agree on every scene that satisfies `WellFormed`, where the only `handGroup` is the last child (`WellFormedRemoval`). Every scene the loop reaches is well formed (`InitialChildrenWellFormed`, `RunKeepsWellFormed`). The model does not reproduce how `traverse` skips or fails when a removed child is not last.
- The `handGroup` is built as a value and added once, so the model does not capture its identity as a three.js object or that lines are added to it one by one.
