# quickdraw.js command log, replay and hit-testing in Dafny

quickdraw.js is a small canvas editor. The user drags out lines, rectangles
and ellipses, and moves or deletes them. Undo, redo and "New" buttons act on a
command log. The editor never edits its scene directly. After every change of
the log it replays the log from scratch into `elementsById`, the map from
element id to shape and rectangle. Presses on the canvas find their target
with `hitTest`, which asks three geometric predicates.

This project models that core as immutable datatypes and pure functions:

- `geometry.dfy` (module `Geometry`): `distanceSquared`,
  `distanceToSegmentSquared`, `rectContainsPoint` and `ellipseContainsPoint`.
  Points and drag rectangles have integer coordinates, because they come from
  mouse events measured in whole pixels. The two quantities the source gets by
  division, the projection parameter on a segment and the normalised ellipse
  sum, are exact `real`s.
- `scene.dfy` (module `Scene`): the command records and the replay fold of
  `renderCommandsToElements`. The scene is kept as a list ordered by id, the
  order in which a JavaScript object keeps and lists its integer keys. A
  separate flag records the junk key `"undefined"`.
- `hittesting.dfy` (module `HitTesting`): `hitTest` over the keys in
  `Object.keys` order, scanned from the last key to the first.
- `log.dfy` (module `CommandLog`): `addCommand` and its three wrappers, undo,
  redo and "New", and the enabled state of the undo and redo buttons.
- `editor.dfy` (module `Handlers`): the three canvas mouse handlers and the
  three buttons, as one step function over the editor's globals.
- `wrappers.dfy` (module `Wrappers`): `Option`, standing in for `null`.

The model reproduces these behaviours of the code as written:

- After a permanent commit, the transient slot holds the empty object `{}`
  (`Blank`), not `null`. Every replay until the next transient append (the next
  drag preview replaces `{}`) stores a shapeless entry under the key
  `"undefined"`, and that entry is never hit.
- `nextId` advances on every permanent commit, including moves and deletes.
  Only a draw takes the current value as its id.
- Undo and redo leave the transient slot alone.
- "New" never touches `nextId`, so ids keep growing across "New". It also
  assigns the misspelt global `transient` instead of `transientCommand`, so
  it does not clear the transient slot either. This reads the script as
  sloppy-mode JavaScript, where that assignment creates a global; in strict
  mode it would throw a `ReferenceError` before the re-render.
- A move whose target is absent reads a property of `undefined` and throws.
  Replay then returns `Faulted`, carrying the scene built up to that command,
  because that is the scene the editor is left with.
- A fault during the mouse-up replay ends that handler early, so the drag
  state is not cleared.
- `hitTest` visits keys in `Object.keys` order, which is ascending numeric.
  So it returns the largest id that is hit, not the most recently inserted
  one.
- A delete gesture that misses on both press and release still commits
  `Delete(null)`. It changes no element, but it clears the redo stack and
  advances `nextId`.
- `dragTarget` starts as -1 (`Some(-1)`), which no `hitTest` result equals.

## Model

| member | source | states |
|---|---|---|
| Geometry.DistanceSquared | quickdraw.js:187-189 | the squared distance is zero exactly when the two points coincide |
| Geometry.DistanceToSegmentSquared | quickdraw.js:175-185 | the result is never negative, and for a zero-length segment it is the squared distance to that single point |
| Geometry.SegmentDistanceIsMinimum | quickdraw.js:175-185 | the clamped projection gives the true squared distance to the segment: some point of the segment attains it and no point of the segment is closer |
| Geometry.SegmentDistanceAtMostEndpoints | quickdraw.js:175-185 | the segment distance never exceeds the squared distance to either end |
| Geometry.SegmentDistanceZeroAtEndpoints | quickdraw.js:175-185 | both ends of a segment are at distance zero from it |
| Geometry.SegmentDistanceFlipInvariant | quickdraw.js:175-185 | describing the segment from its other end (x+w, y+h, -w, -h) gives the same distance |
| Geometry.RectContainsPoint | quickdraw.js:191-197 | the min/max test holds exactly when, on each axis, the point lies between the two corners, boundary included, whatever the signs of the extents |
| Geometry.RectContainsFlipInvariant | quickdraw.js:191-197 | a rectangle and its flipped description contain the same points |
| Geometry.EllipseContainsPoint | quickdraw.js:199-203 | an ellipse with zero width or height contains no point, because a zero radius makes the sum NaN or Infinity; otherwise it contains exactly the points of the whole-number ellipse inequality, and every point it contains lies in its rectangle |
| Geometry.EllipseContainsFlipInvariant | quickdraw.js:199-203 | the ellipse test uses the centre and absolute radii, so it does not depend on which corner the rectangle is described from |
| Geometry.EllipseWholeNumberForm | quickdraw.js:199-203 | for non-zero extents, the fractional test is equivalent to the whole-number inequality X^2 h^2 + Y^2 w^2 <= w^2 h^2, where X and Y are twice the offsets from the centre |
| Geometry.InequalityWithinRect | quickdraw.js:191-203 | every point satisfying the ellipse inequality of a rectangle with non-zero extents lies in that rectangle |
| Geometry.SegmentHitNearRect | quickdraw.js:158-160 | a point within the line hit radius (squared distance below 4) of a segment lies within one pixel of the segment's bounding rectangle on both axes |
| Scene.Find | quickdraw.js:107-108 | a lookup returns an element stored under the id, and fails only when no entry has that id |
| Scene.Put | quickdraw.js:111-112 | after storing an element, the id finds it, every other id finds what it found before, and the ids stay ascending |
| Scene.Remove | quickdraw.js:103-105 | after a delete, the id is absent, every other id is unchanged, and an absent id is a no-op |
| Scene.Apply | quickdraw.js:101-113 | one replay step fails exactly on a move whose target is absent; a `Blank` adds the key `"undefined"`; a step changes no id other than the one it names |
| Scene.Replay | quickdraw.js:96-114 | every id the replay leaves in the scene is drawn by some replayed command, and the key `"undefined"` is present only if a `Blank` was replayed |
| Scene.ReplayLive | quickdraw.js:96-114 | after a replay without fault, an id is present exactly when some command draws it and no later command deletes it |
| Scene.ReplayEntry | quickdraw.js:96-114 | the entry of an id has the shape of the last draw of that id, with that draw's rectangle moved by the sum of the later moves of the id |
| Scene.ReplayJunk | quickdraw.js:96-114 | the key `"undefined"` is present exactly when a `Blank` was replayed |
| Scene.ReplayFaultsIffDangling | quickdraw.js:96-114 | a replay faults exactly when some move targets an id that is not live among the commands before it |
| Scene.ReplayFaultedScene | quickdraw.js:96-114 | a faulted replay carries the scene built by the commands before a move whose target it lacks |
| Scene.DeleteNullIsInert | quickdraw.js:103-105 | replaying a delete of `null` changes neither the scene nor the outcome |
| HitTesting.ObjectKeys | quickdraw.js:151 | the keys list the ids in ascending order, followed by `"undefined"` last when the junk key is present |
| HitTesting.Hits | quickdraw.js:157-167 | a line hit lies within one pixel of the line's bounding rectangle, and a rectangle or ellipse hit lies inside the element's rectangle |
| HitTesting.ScanFromTop | quickdraw.js:151-172 | scanning the keys from the last to the first returns an id whose element is hit and no smaller than the id of any other hit key, and `None` exactly when no key is hit |
| HitTesting.Topmost | quickdraw.js:150-173 | for any shape predicate, the scan over all keys returns the largest id whose element satisfies it, and `None` exactly when no element does |
| HitTesting.HitTest | quickdraw.js:150-173 | the result is the largest id whose element is hit at the point, and `None` exactly when no element is hit |
| HitTesting.HitsFlipInvariant | quickdraw.js:157-167 | whether an element is hit does not depend on which corner its rectangle is described from |
| HitTesting.LineHitAtEnds | quickdraw.js:158-160 | a line is hit at both of its ends |
| CommandLog.AddCommand | quickdraw.js:81-92 | a transient append replaces only the transient slot; a permanent append of any kind of command ends the committed commands and the history with it, discards the redo stack, leaves the empty object in the transient slot and advances the id counter by one |
| CommandLog.AddDrawCommand | quickdraw.js:77-79 | a draw takes the counter's id; a preview replaces only the transient slot (the committed commands, the redo stack and the counter are kept), a commit appends the draw, empties the redo stack, leaves `{}` in the transient slot and advances the counter |
| CommandLog.AddMoveCommand | quickdraw.js:73-75 | a preview of the move replaces only the transient slot (the committed commands, the redo stack and the counter are kept), a commit appends the move, empties the redo stack, leaves `{}` in the transient slot and advances the counter |
| CommandLog.AddDeleteCommand | quickdraw.js:69-71 | a preview of the delete replaces only the transient slot (the committed commands, the redo stack and the counter are kept), a commit appends the delete, empties the redo stack, leaves `{}` in the transient slot and advances the counter |
| CommandLog.Render | quickdraw.js:96-114 | after a replay without fault, an id is in the scene exactly when it is live among the committed commands followed by the transient one |
| CommandLog.CommitKeepsPicture | quickdraw.js:81-100 | committing the command a drag previewed leaves the replayed elements as in the preview, adding only the key `"undefined"` |
| CommandLog.AddKeepsIdsFresh | quickdraw.js:77-89 | appending a draw that takes the counter's id, or any other command, keeps every draw id in the history below the counter and strictly increasing |
| CommandLog.CommittedDrawIdsDistinct | quickdraw.js:77-89 | under the id invariant, two different committed draws have different ids |
| CommandLog.Undo | quickdraw.js:205-211 | undo changes the log exactly when the undo button is enabled, and it keeps the history (committed commands followed by the undone ones, most recent first), the transient slot and the id counter |
| CommandLog.Redo | quickdraw.js:213-219 | redo changes the log exactly when the redo button is enabled, and it keeps the history, the transient slot and the id counter |
| CommandLog.StacksMoveTop | quickdraw.js:205-219 | an enabled undo moves the last committed command onto the top of the redo stack, and an enabled redo moves the top of the redo stack back to the end of the committed commands |
| CommandLog.RedoAfterUndo | quickdraw.js:205-219 | redo exactly reverses an effective undo |
| CommandLog.UndoAfterRedo | quickdraw.js:205-219 | undo exactly reverses an effective redo |
| CommandLog.UndoTimesPrefix | quickdraw.js:205-211 | k undo clicks leave the first n-k committed commands and keep the history and the transient slot |
| CommandLog.RedoTimesAfterUndoTimes | quickdraw.js:205-219 | k redo clicks after k undo clicks restore the log |
| CommandLog.UndoAllLooksLikeNew | quickdraw.js:205-227 | undoing every committed command shows the same scene as clicking "New" |
| CommandLog.New | quickdraw.js:221-227 | "New" disables undo and redo, keeps the transient slot and the id counter, and the scene is the replay of the transient command alone |
| CommandLog.StackOpsKeepIdsFresh | quickdraw.js:205-227 | undo, redo and "New" keep the id invariant |
| Handlers.Press | quickdraw.js:233-241 | a press records its point as the drag start and never changes the log or the scene; a shape tool keeps the recorded target, while the move or delete tool records `null` exactly when no element is hit and otherwise an element present in the scene, hit at the press point, with the largest id among those hit |
| Handlers.Drag | quickdraw.js:243-258 | a mouse move never changes the committed commands, the redo stack, the id counter or the drag state; a shape drag previews a draw of the dragged rectangle under the counter's id, a move drag previews a move of the target by the offset so far, and the shown scene is then the replay of the new log; it changes nothing with the delete tool or without a drag in progress |
| Handlers.Release | quickdraw.js:261-281 | mouse-up commits exactly under its tool's guard (delete: same target as at press; move: start and target; shape: start), and a commit appends one command after the old ones, empties the redo stack, leaves `{}` in the transient slot and advances the counter |
| Handlers.Lift | quickdraw.js:260-284 | mouse-up appends a draw of the dragged rectangle under the counter's id, a move of the target by the drag offset, or a delete of the target, by tool; the shown scene is then the replay of the new log; without a commit the log and scene are unchanged; the drag state is cleared unless the replay of the committed log faults, in which case it is kept |
| Handlers.Step | quickdraw.js:205-284 | no event changes the selected tool, and every event keeps the shown scene equal to the replay of the log; an undo or redo click applies Undo or Redo to the log and keeps the drag state, re-rendering when the button is enabled and changing nothing when it is disabled; a "New" click applies New to the log, re-renders and keeps the drag state |
| Handlers.LoadedSynced | quickdraw.js:3-15 | at page load, once `init` has rendered (line 50), the shown scene is the replay of the log |
| Handlers.RunKeepsSynced | quickdraw.js:205-284 | after any sequence of events the shown scene is the replay of the log |
| Handlers.DeleteReleaseCommitsIffSameTarget | quickdraw.js:260-268 | with the delete tool, mouse-up commits a delete of the target under the cursor exactly when it equals the target found at mouse-down, `null` included, and otherwise leaves the log unchanged |
| Handlers.LiftKeepsIdsFresh | quickdraw.js:260-284 | whatever mouse-up commits keeps the id invariant |
| Handlers.StepKeepsIdsFresh | quickdraw.js:205-284 | every event keeps the id invariant |
| Handlers.RunKeepsIdsFresh | quickdraw.js:205-284 | every sequence of events keeps the id invariant |
| Handlers.LoadedIdsFresh | quickdraw.js:3-6 | the log at page load satisfies the id invariant |
| Handlers.DrawMovesPreview | quickdraw.js:250-256 | during a shape drag, moves only replace the preview and keep the drag start |
| Handlers.DrawGesture | quickdraw.js:233-284 | a complete shape drag from a to b commits exactly one draw of the dragged rectangle under the counter's id, whatever the moves between |
| Handlers.MoveMovesPreview | quickdraw.js:245-249 | during a move drag, moves only replace the preview and keep the drag start and target |
| Handlers.InertMoves | quickdraw.js:245-249 | with the move tool and no target, moves change nothing |
| Handlers.MoveGesture | quickdraw.js:233-284 | a complete move drag that starts on an element commits one move of the topmost element there by the drag offset; one that starts on empty canvas leaves the log as it was |
| Handlers.DeleteMovesInert | quickdraw.js:243-258 | with the delete tool, moves change nothing |
| Handlers.DeleteGesture | quickdraw.js:233-284 | a complete delete gesture commits a delete of the release target exactly when it equals the press target, two misses included, and that commit empties the redo stack and leaves `{}` in the transient slot; otherwise the log is unchanged |

## Left out

- DOM wiring and the tool palette (`init`, `selectTool`, `handleToolClick`, `window.onload`, lines 17-62, 229-231, 286-288) are left out, because they are user-interface plumbing. The tool is a field of the editor state that no event changes. `Handlers.Loaded` is the state after `init` with the line tool.
- The `disabled` writes of `updateButtonsForCurrentState` (lines 64-67) are left out. Only the conditions are kept, as `CanUndo` and `CanRedo`.
- Canvas painting in `renderCommandsToElements` (lines 116-147) is left out, because it is the drawing backend. Only the replay (lines 96-114) is modelled, together with the fact that a fault in it ends the calling handler.
- IEEE-754 arithmetic is not modelled. Coordinates are integer pixels, and the division results are exact fractions. The one place where the source depends on IEEE-754 special values, a zero ellipse radius, is written out as an explicit test.
- The ids that `Object.keys` returns are strings, and `hitTest` returns them as strings. The model uses integer ids throughout. The only observable difference is that the initial `dragTarget` of -1 never equals a key, and the model keeps that.
- JavaScript orders integer keys numerically only for array-index keys (below 2^32 - 1). Larger ids are not modelled separately.
- Reporting of the thrown exception to the browser is not modelled. A fault is the `Faulted` outcome, and it keeps the partial scene.
