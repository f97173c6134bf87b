/** The canvas event handlers and the undo, redo and "New" buttons of
    quickdraw.js as one step function over the editor state. Cursor
    coordinates (`layerX`, `layerY`) are carried by the events. */
module Handlers {
  import opened Wrappers
  import opened Geometry
  import opened Scene
  import opened HitTesting
  import opened CommandLog

  /** The selected tool: one of the three shape tools, move or delete. */
  datatype Tool = DrawTool(shape: Shape) | MoveTool | DeleteTool

  datatype Event =
    | MouseDown(at: Point)
    | MouseMove(at: Point)
    | MouseUp(at: Point)
    | UndoClick
    | RedoClick
    | NewClick

  /** The editor's globals: the log, the last replayed scene (`elementsById`),
      the tool, and the drag state. `dragTarget` holds the id found under the
      cursor at mouse-down (`None` is `null`). */
  datatype Editor = Editor(log: Log, elements: Scene, tool: Tool, dragStart: Option<Point>, dragTarget: Option<int>)

  /** The state after the page has loaded with the line tool selected: the
      scene of the empty log, no drag, and the initial drag target -1. */
  const Loaded := Editor(Initial, EmptyScene, DrawTool(Line), None, Some(-1))

  /** The offset from `a` to `b`. */
  function Offset(a: Point, b: Point): Point
  {
    Point(b.x - a.x, b.y - a.y)
  }

  /** The rectangle dragged out from `a` to `b`, with signed extents. */
  function DragRect(a: Point, b: Point): Rect
  {
    Rect(a.x, a.y, b.x - a.x, b.y - a.y)
  }

  /** The editor holding `log`, with the scene replayed from it. */
  function Show(ed: Editor, log: Log): Editor
  {
    ed.(log := log, elements := Render(log).scene)
  }

  /** Whether the shown scene is the replay of the log, as
      `renderCommandsToElements` leaves it after every change of the log. */
  predicate Synced(ed: Editor)
  {
    ed.elements == Render(ed.log).scene
  }

  /** The guard under which the mouse-up handler commits: with the delete tool,
      the target under the cursor is the one found at mouse-down (`null`
      included); with the move tool, a drag with a target is in progress; with
      a shape tool, a drag is in progress. */
  predicate Commits(ed: Editor, at: Point)
  {
    match ed.tool
    case DeleteTool => HitTest(ed.elements, at) == ed.dragTarget
    case MoveTool => ed.dragStart.Some? && ed.dragTarget.Some?
    case DrawTool(_) => ed.dragStart.Some?
  }

  /** The log the mouse-up handler commits, if any. A commit is a permanent
      append of one command: the committed commands grow by one and keep their
      prefix, the redo stack is emptied and the id counter advances. */
  function Release(ed: Editor, at: Point): (r: Option<Log>)
    ensures r.Some? <==> Commits(ed, at)
    ensures r.Some? ==>
              && |r.value.commands| == |ed.log.commands| + 1
              && r.value.commands[..|ed.log.commands|] == ed.log.commands
              && r.value.undos == [] && r.value.transient == Some(Blank)
              && r.value.nextId == ed.log.nextId + 1
  {
    match ed.tool
    case DeleteTool =>
      var target := HitTest(ed.elements, at);
      if target == ed.dragTarget then Some(AddDeleteCommand(ed.log, target, false)) else None
    case MoveTool =>
      if ed.dragStart.Some? && ed.dragTarget.Some? then
        Some(AddMoveCommand(ed.log, ed.dragTarget.value, Offset(ed.dragStart.value, at), false))
      else None
    case DrawTool(shape) =>
      if ed.dragStart.Some? then
        Some(AddDrawCommand(ed.log, shape, DragRect(ed.dragStart.value, at), false))
      else None
  }

  /** `handleCanvasMouseDown`: the press point becomes the drag start. The
      move and delete tools record the topmost element under it, or `null` on
      a miss; the shape tools leave the recorded target alone. */
  function Press(ed: Editor, at: Point): (r: Editor)
    ensures r.log == ed.log && r.elements == ed.elements && r.dragStart == Some(at)
    ensures ed.tool.DrawTool? ==> r.dragTarget == ed.dragTarget
    ensures !ed.tool.DrawTool? ==>
              (r.dragTarget.None? <==> forall k :: Lookup(ed.elements, k).Some? ==> !Hits(Lookup(ed.elements, k).value, at))
    ensures !ed.tool.DrawTool? && r.dragTarget.Some? ==>
              && Lookup(ed.elements, r.dragTarget.value).Some?
              && Hits(Lookup(ed.elements, r.dragTarget.value).value, at)
              && forall k :: Lookup(ed.elements, k).Some? && Hits(Lookup(ed.elements, k).value, at) ==> k <= r.dragTarget.value
  {
    var target := if ed.tool.DrawTool? then ed.dragTarget else HitTest(ed.elements, at);
    ed.(dragStart := Some(at), dragTarget := target)
  }

  /** `handleCanvasMouseMove`: a drag in progress previews its command in the
      transient slot, a draw under the counter's id or a move of the target by
      the offset so far, and the scene is replayed; nothing else changes. */
  function Drag(ed: Editor, at: Point): (r: Editor)
    ensures r.log.commands == ed.log.commands && r.log.undos == ed.log.undos
    ensures r.log.nextId == ed.log.nextId
    ensures r.tool == ed.tool && r.dragStart == ed.dragStart && r.dragTarget == ed.dragTarget
    ensures ed.tool.DrawTool? && ed.dragStart.Some? ==>
              r.log.transient == Some(Draw(ed.tool.shape, ed.log.nextId, DragRect(ed.dragStart.value, at)))
    ensures ed.tool.MoveTool? && ed.dragStart.Some? && ed.dragTarget.Some? ==>
              r.log.transient == Some(Move(ed.dragTarget.value, Offset(ed.dragStart.value, at)))
    ensures ed.tool.DeleteTool? || ed.dragStart.None? || (ed.tool.MoveTool? && ed.dragTarget.None?) ==> r == ed
    ensures r != ed ==> r.elements == Render(r.log).scene
  {
    match ed.tool
    case DeleteTool => ed
    case MoveTool =>
      if ed.dragStart.Some? && ed.dragTarget.Some? then
        Show(ed, AddMoveCommand(ed.log, ed.dragTarget.value, Offset(ed.dragStart.value, at), true))
      else ed
    case DrawTool(shape) =>
      if ed.dragStart.Some? then
        Show(ed, AddDrawCommand(ed.log, shape, DragRect(ed.dragStart.value, at), true))
      else ed
  }

  /** `handleCanvasMouseUp`: commits per tool and clears the drag state, unless
      the replay of the new log faults, which ends the handler before the drag
      state is cleared. Without a commit the log is unchanged. */
  function Lift(ed: Editor, at: Point): (r: Editor)
    ensures r.tool == ed.tool
    ensures ed.tool.DrawTool? && ed.dragStart.Some? ==>
              r.log.commands == ed.log.commands + [Draw(ed.tool.shape, ed.log.nextId, DragRect(ed.dragStart.value, at))]
    ensures ed.tool.MoveTool? && ed.dragStart.Some? && ed.dragTarget.Some? ==>
              r.log.commands == ed.log.commands + [Move(ed.dragTarget.value, Offset(ed.dragStart.value, at))]
    ensures ed.tool.DeleteTool? && HitTest(ed.elements, at) == ed.dragTarget ==>
              r.log.commands == ed.log.commands + [Delete(ed.dragTarget)]
    ensures Commits(ed, at) ==>
              && r.log.undos == [] && r.log.transient == Some(Blank) && r.log.nextId == ed.log.nextId + 1
              && r.elements == Render(r.log).scene
    ensures !Commits(ed, at) ==> r.log == ed.log && r.elements == ed.elements
    ensures !Commits(ed, at) || Render(r.log).Built? ==> r.dragStart.None? && r.dragTarget.None?
    ensures Commits(ed, at) && Render(r.log).Faulted? ==> r.dragStart == ed.dragStart && r.dragTarget == ed.dragTarget
  {
    match Release(ed, at)
    case None => ed.(dragStart := None, dragTarget := None)
    case Some(log) =>
      if Render(log).Faulted? then Show(ed, log)
      else Show(ed, log).(dragStart := None, dragTarget := None)
  }

  /** One event. Every change of the log re-renders the scene, so the scene
      shown after any event is the replay of the log whenever it was before. */
  function Step(ed: Editor, ev: Event): (r: Editor)
    ensures r.tool == ed.tool
    ensures Synced(ed) ==> Synced(r)
    ensures ev.UndoClick? ==>
              && r.log == Undo(ed.log) && r.dragStart == ed.dragStart && r.dragTarget == ed.dragTarget
              && (CanUndo(ed.log) ==> r.elements == Render(r.log).scene)
              && (!CanUndo(ed.log) ==> r == ed)
    ensures ev.RedoClick? ==>
              && r.log == Redo(ed.log) && r.dragStart == ed.dragStart && r.dragTarget == ed.dragTarget
              && (CanRedo(ed.log) ==> r.elements == Render(r.log).scene)
              && (!CanRedo(ed.log) ==> r == ed)
    ensures ev.NewClick? ==>
              && r.log == New(ed.log) && r.elements == Render(r.log).scene
              && r.dragStart == ed.dragStart && r.dragTarget == ed.dragTarget
  {
    match ev
    case MouseDown(at) => Press(ed, at)
    case MouseMove(at) => Drag(ed, at)
    case MouseUp(at) => Lift(ed, at)
    case UndoClick => if CanUndo(ed.log) then Show(ed, Undo(ed.log)) else ed
    case RedoClick => if CanRedo(ed.log) then Show(ed, Redo(ed.log)) else ed
    case NewClick => Show(ed, New(ed.log))
  }

  /** A sequence of events, handled in order. */
  function Run(ed: Editor, evs: seq<Event>): Editor
    decreases |evs|
  {
    if |evs| == 0 then ed else Run(Step(ed, evs[0]), evs[1..])
  }

  predicate AllMoves(evs: seq<Event>)
  {
    forall i :: 0 <= i < |evs| ==> evs[i].MouseMove?
  }

  // ---------------------------------------------------------------------------
  // Properties of single events

  /** With the delete tool, mouse-up commits a delete of the target under the
      cursor exactly when that target equals the one found at mouse-down;
      otherwise the log is unchanged. */
  lemma DeleteReleaseCommitsIffSameTarget(ed: Editor, at: Point)
    requires ed.tool == DeleteTool
    ensures var target := HitTest(ed.elements, at);
            var r := Step(ed, MouseUp(at)).log;
            && (r.commands == ed.log.commands + [Delete(target)] <==> target == ed.dragTarget)
            && (target != ed.dragTarget ==> r == ed.log)
  {
    var target := HitTest(ed.elements, at);
    if target != ed.dragTarget {
      assert |Step(ed, MouseUp(at)).log.commands| == |ed.log.commands|;
    }
  }

  /** Whatever mouse-up commits keeps the id invariant: a draw takes the
      counter's id. */
  lemma LiftKeepsIdsFresh(ed: Editor, at: Point)
    requires IdsFresh(ed.log)
    ensures IdsFresh(Lift(ed, at).log)
  {
    match ed.tool
    case DeleteTool => AddKeepsIdsFresh(ed.log, Delete(HitTest(ed.elements, at)));
    case MoveTool =>
      if ed.dragStart.Some? && ed.dragTarget.Some? {
        AddKeepsIdsFresh(ed.log, Move(ed.dragTarget.value, Offset(ed.dragStart.value, at)));
      }
    case DrawTool(shape) =>
      if ed.dragStart.Some? {
        AddKeepsIdsFresh(ed.log, Draw(shape, ed.log.nextId, DragRect(ed.dragStart.value, at)));
      }
  }

  /** Every event keeps the id invariant of the log. */
  lemma StepKeepsIdsFresh(ed: Editor, ev: Event)
    requires IdsFresh(ed.log)
    ensures IdsFresh(Step(ed, ev).log)
  {
    match ev
    case MouseDown(_) =>
    case MouseMove(at) =>
      if ed.tool.MoveTool? && ed.dragStart.Some? && ed.dragTarget.Some? {
        AddKeepsIdsFresh(ed.log, Move(ed.dragTarget.value, Offset(ed.dragStart.value, at)));
      } else if ed.tool.DrawTool? && ed.dragStart.Some? {
        AddKeepsIdsFresh(ed.log, Draw(ed.tool.shape, ed.log.nextId, DragRect(ed.dragStart.value, at)));
      }
    case MouseUp(at) => LiftKeepsIdsFresh(ed, at);
    case _ => StackOpsKeepIdsFresh(ed.log);
  }

  /** Any sequence of events keeps the id invariant, so in every reachable
      state the committed draws have pairwise distinct ids. */
  lemma {:induction false} RunKeepsIdsFresh(ed: Editor, evs: seq<Event>)
    requires IdsFresh(ed.log)
    ensures IdsFresh(Run(ed, evs).log)
    decreases |evs|
  {
    if |evs| > 0 {
      StepKeepsIdsFresh(ed, evs[0]);
      RunKeepsIdsFresh(Step(ed, evs[0]), evs[1..]);
    }
  }

  lemma LoadedIdsFresh()
    ensures IdsFresh(Loaded.log)
  {
  }

  /** The scene shown after loading is the replay of the fresh log. */
  lemma LoadedSynced()
    ensures Synced(Loaded)
  {
  }

  /** Any sequence of events keeps the shown scene equal to the replay of the
      log, so every state reachable from loading shows its own log. */
  lemma {:induction false} RunKeepsSynced(ed: Editor, evs: seq<Event>)
    requires Synced(ed)
    ensures Synced(Run(ed, evs))
    decreases |evs|
  {
    if |evs| > 0 {
      RunKeepsSynced(Step(ed, evs[0]), evs[1..]);
    }
  }

  // ---------------------------------------------------------------------------
  // Whole gestures: a press, any number of moves, a release

  lemma RunSplit(ed: Editor, a: Event, moves: seq<Event>, b: Event)
    ensures Run(ed, [a] + moves + [b]) == Step(Run(Step(ed, a), moves), b)
  {
    assert ([a] + moves + [b])[1..] == moves + [b];
    assert Run(ed, [a] + moves + [b]) == Run(Step(ed, a), moves + [b]);
    RunAppend(Step(ed, a), moves, b);
  }

  lemma {:induction false} RunAppend(ed: Editor, evs: seq<Event>, b: Event)
    ensures Run(ed, evs + [b]) == Step(Run(ed, evs), b)
    decreases |evs|
  {
    if |evs| == 0 {
      assert evs + [b] == [b];
    } else {
      assert (evs + [b])[1..] == evs[1..] + [b];
      RunAppend(Step(ed, evs[0]), evs[1..], b);
    }
  }

  /** During a shape drag the moves only preview: the committed commands, the
      redo stack, the id counter and the drag start are unchanged. */
  lemma {:induction false} DrawMovesPreview(ed: Editor, moves: seq<Event>)
    requires ed.tool.DrawTool? && ed.dragStart.Some? && AllMoves(moves)
    ensures var r := Run(ed, moves);
            r.log.commands == ed.log.commands && r.log.undos == ed.log.undos
            && r.log.nextId == ed.log.nextId && r.dragStart == ed.dragStart && r.tool == ed.tool
    decreases |moves|
  {
    if |moves| > 0 {
      DrawMovesPreview(Step(ed, moves[0]), moves[1..]);
    }
  }

  /** A complete shape drag from `a` to `b` commits one draw of the dragged
      rectangle under the counter's id, whatever the moves in between. */
  lemma DrawGesture(ed: Editor, a: Point, moves: seq<Event>, b: Point)
    requires ed.tool.DrawTool? && AllMoves(moves)
    ensures var r := Run(ed, [MouseDown(a)] + moves + [MouseUp(b)]).log;
            && r.commands == ed.log.commands + [Draw(ed.tool.shape, ed.log.nextId, DragRect(a, b))]
            && r.undos == [] && r.transient == Some(Blank) && r.nextId == ed.log.nextId + 1
  {
    RunSplit(ed, MouseDown(a), moves, MouseUp(b));
    DrawMovesPreview(Step(ed, MouseDown(a)), moves);
  }

  /** During a move drag the moves only preview, and the target is fixed. */
  lemma {:induction false} MoveMovesPreview(ed: Editor, moves: seq<Event>)
    requires ed.tool.MoveTool? && ed.dragStart.Some? && AllMoves(moves)
    ensures var r := Run(ed, moves);
            r.log.commands == ed.log.commands && r.log.undos == ed.log.undos
            && r.log.nextId == ed.log.nextId && r.dragStart == ed.dragStart
            && r.dragTarget == ed.dragTarget && r.tool == ed.tool
    decreases |moves|
  {
    if |moves| > 0 {
      MoveMovesPreview(Step(ed, moves[0]), moves[1..]);
    }
  }

  /** A complete move drag that starts on an element commits one move of that
      element by the drag's offset; one that starts on empty canvas leaves
      the log as it was. */
  lemma MoveGesture(ed: Editor, a: Point, moves: seq<Event>, b: Point)
    requires ed.tool.MoveTool? && AllMoves(moves)
    ensures var r := Run(ed, [MouseDown(a)] + moves + [MouseUp(b)]).log;
            match HitTest(ed.elements, a)
            case Some(t) =>
              && r.commands == ed.log.commands + [Move(t, Offset(a, b))]
              && r.undos == [] && r.transient == Some(Blank) && r.nextId == ed.log.nextId + 1
            case None => r == ed.log
  {
    RunSplit(ed, MouseDown(a), moves, MouseUp(b));
    var down := Step(ed, MouseDown(a));
    assert down.dragStart == Some(a) && down.dragTarget == HitTest(ed.elements, a) && down.log == ed.log;
    var mid := Run(down, moves);
    MoveMovesPreview(down, moves);
    assert Step(mid, MouseUp(b)) == Lift(mid, b);
    if HitTest(ed.elements, a).None? {
      InertMoves(down, moves);
      assert !Commits(mid, b);
    }
  }

  /** Moves change nothing while no move target is held. */
  lemma {:induction false} InertMoves(ed: Editor, moves: seq<Event>)
    requires ed.tool.MoveTool? && ed.dragTarget.None? && AllMoves(moves)
    ensures Run(ed, moves) == ed
    decreases |moves|
  {
    if |moves| > 0 {
      InertMoves(Step(ed, moves[0]), moves[1..]);
    }
  }

  /** With the delete tool the moves do nothing at all. */
  lemma {:induction false} DeleteMovesInert(ed: Editor, moves: seq<Event>)
    requires ed.tool.DeleteTool? && AllMoves(moves)
    ensures Run(ed, moves) == ed
    decreases |moves|
  {
    if |moves| > 0 {
      DeleteMovesInert(Step(ed, moves[0]), moves[1..]);
    }
  }

  /** A complete delete gesture commits a delete of the target under the
      release point exactly when it is the target under the press point; this
      includes two misses, which commit `Delete(None)`. */
  lemma DeleteGesture(ed: Editor, a: Point, moves: seq<Event>, b: Point)
    requires ed.tool.DeleteTool? && AllMoves(moves)
    ensures var r := Run(ed, [MouseDown(a)] + moves + [MouseUp(b)]).log;
            var target := HitTest(ed.elements, b);
            && (target == HitTest(ed.elements, a) ==>
                  && r.commands == ed.log.commands + [Delete(target)] && r.nextId == ed.log.nextId + 1
                  && r.undos == [] && r.transient == Some(Blank))
            && (target != HitTest(ed.elements, a) ==> r == ed.log)
  {
    RunSplit(ed, MouseDown(a), moves, MouseUp(b));
    DeleteMovesInert(Step(ed, MouseDown(a)), moves);
  }
}
