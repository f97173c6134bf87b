/** The command log of quickdraw.js: the committed commands, the undo stack,
    the transient slot and the id counter, and the operations on them. */
module CommandLog {
  import opened Wrappers
  import opened Geometry
  import opened Scene

  /** `commands` holds the committed commands in order; `undos` is the redo
      stack, its last element on top; `transient` is the slot that previews
      the command of a drag in progress (`None` is `null`); `nextId` is the id
      the next draw takes. */
  datatype Log = Log(commands: seq<Command>, undos: seq<Command>, transient: Option<Command>, nextId: int)

  /** The log when the page loads. */
  const Initial := Log([], [], None, 1)

  /** `addCommand`: a transient command only replaces the transient slot; a
      permanent one is appended to the committed commands, empties the redo
      stack, advances the id counter whatever its kind, and leaves the empty
      object `Blank` (not `null`) in the transient slot. */
  function AddCommand(log: Log, c: Command, isTransient: bool): (r: Log)
    ensures isTransient ==>
              && r.commands == log.commands && r.undos == log.undos
              && r.nextId == log.nextId && r.transient == Some(c)
    ensures !isTransient ==>
              && r.commands == log.commands + [c]
              && Timeline(r) == log.commands + [c]
              && !CanRedo(r)
              && r.transient == Some(Blank)
              && r.nextId == log.nextId + 1
  {
    if isTransient then log.(transient := Some(c))
    else Log(log.commands + [c], [], Some(Blank), log.nextId + 1)
  }

  /** `addDrawCommand`: a draw takes the current value of the id counter. */
  function AddDrawCommand(log: Log, shape: Shape, rect: Rect, isTransient: bool): (r: Log)
    ensures isTransient ==>
              && r.transient == Some(Draw(shape, log.nextId, rect)) && r.commands == log.commands
              && r.undos == log.undos && r.nextId == log.nextId
    ensures !isTransient ==>
              && r.commands == log.commands + [Draw(shape, log.nextId, rect)] && r.undos == [] && r.transient == Some(Blank)
              && r.nextId == log.nextId + 1
  {
    AddCommand(log, Draw(shape, log.nextId, rect), isTransient)
  }

  /** `addMoveCommand`: a move commits like any command and advances the id
      counter although it draws nothing. */
  function AddMoveCommand(log: Log, id: int, offset: Point, isTransient: bool): (r: Log)
    ensures isTransient ==>
              && r.transient == Some(Move(id, offset)) && r.commands == log.commands
              && r.undos == log.undos && r.nextId == log.nextId
    ensures !isTransient ==>
              && r.commands == log.commands + [Move(id, offset)] && r.undos == [] && r.transient == Some(Blank)
              && r.nextId == log.nextId + 1
  {
    AddCommand(log, Move(id, offset), isTransient)
  }

  /** `addDeleteCommand`: likewise for a delete, `null` id included. */
  function AddDeleteCommand(log: Log, id: Option<int>, isTransient: bool): (r: Log)
    ensures isTransient ==>
              && r.transient == Some(Delete(id)) && r.commands == log.commands
              && r.undos == log.undos && r.nextId == log.nextId
    ensures !isTransient ==>
              && r.commands == log.commands + [Delete(id)] && r.undos == [] && r.transient == Some(Blank)
              && r.nextId == log.nextId + 1
  {
    AddCommand(log, Delete(id), isTransient)
  }

  /** Whether the undo and redo buttons are enabled. */
  predicate CanUndo(log: Log) { |log.commands| != 0 }

  predicate CanRedo(log: Log) { |log.undos| != 0 }

  /** `handleUndoClick`: the last committed command moves onto the redo stack. */
  function Undo(log: Log): (r: Log)
    ensures CanUndo(log) <==> r != log
    ensures Timeline(r) == Timeline(log)
    ensures r.transient == log.transient && r.nextId == log.nextId
  {
    if CanUndo(log) then
      var n := |log.commands|;
      var last := log.commands[n - 1];
      ReverseAppend(log.undos, last);
      assert log.commands == log.commands[..n - 1] + [last];
      log.(commands := log.commands[..n - 1], undos := log.undos + [last])
    else log
  }

  /** `handleRedoClick`: the top of the redo stack is committed again. */
  function Redo(log: Log): (r: Log)
    ensures CanRedo(log) <==> r != log
    ensures Timeline(r) == Timeline(log)
    ensures r.transient == log.transient && r.nextId == log.nextId
  {
    if CanRedo(log) then
      var n := |log.undos|;
      var top := log.undos[n - 1];
      assert log.undos == log.undos[..n - 1] + [top];
      ReverseAppend(log.undos[..n - 1], top);
      log.(commands := log.commands + [top], undos := log.undos[..n - 1])
    else log
  }

  /** `handleNewClick`: both stacks are emptied. The source assigns the
      misspelt global `transient`, so the transient slot survives, and the id
      counter is not reset either. */
  function New(log: Log): (r: Log)
    ensures !CanUndo(r) && !CanRedo(r)
    ensures r.transient == log.transient && r.nextId == log.nextId
    ensures Render(r) == Replay(if log.transient.Some? then [log.transient.value] else [])
  {
    log.(commands := [], undos := [])
  }

  /** The commands the scene is rebuilt from: the committed ones, then the
      transient slot when it is not `null` (the empty object `Blank` is not). */
  function AllCommands(log: Log): seq<Command>
  {
    log.commands + if log.transient.Some? then [log.transient.value] else []
  }

  /** The replay part of `renderCommandsToElements`. Without a fault, an id is
      in the scene exactly when some command of the log or the transient slot
      draws it and no later one deletes it. */
  function Render(log: Log): (r: Replayed)
    ensures r.Built? ==> forall k :: Lookup(r.scene, k).Some? <==> Live(AllCommands(log), k)
  {
    ReplayLiveAll(AllCommands(log));
    Replay(AllCommands(log))
  }

  function Reverse<T>(s: seq<T>): (r: seq<T>)
    ensures |r| == |s|
    ensures forall i :: 0 <= i < |s| ==> r[i] == s[|s| - 1 - i]
  {
    if |s| == 0 then [] else [s[|s| - 1]] + Reverse(s[..|s| - 1])
  }

  lemma ReverseAppend<T>(s: seq<T>, x: T)
    ensures Reverse(s + [x]) == [x] + Reverse(s)
  {
    assert (s + [x])[..|s|] == s;
  }

  /** The whole history the two stacks hold: the committed commands followed by
      the undone ones, most recently undone first. */
  function Timeline(log: Log): seq<Command>
  {
    log.commands + Reverse(log.undos)
  }

  /** The ids of draws in `cmds` increase strictly from left to right and lie
      between 1 and `bound - 1`. */
  predicate DrawIdsBelow(cmds: seq<Command>, bound: int)
  {
    && (forall i :: 0 <= i < |cmds| && cmds[i].Draw? ==> 1 <= cmds[i].id < bound)
    && (forall i, j :: 0 <= i < j < |cmds| && cmds[i].Draw? && cmds[j].Draw? ==> cmds[i].id < cmds[j].id)
  }

  /** The id invariant of the log: every draw in the history took an id below
      the counter, in increasing order. */
  predicate IdsFresh(log: Log)
  {
    log.nextId >= 1 && DrawIdsBelow(Timeline(log), log.nextId)
  }

  // ---------------------------------------------------------------------------
  // Appending

  /** Committing the command shown by a transient append keeps the picture: the
      scene replayed after the commit holds the same elements as the preview,
      and only gains the key `"undefined"`. */
  lemma {:induction false} CommitKeepsPicture(log: Log, c: Command)
    ensures var preview := Render(AddCommand(log, c, true));
            var committed := Render(AddCommand(log, c, false));
            committed.Faulted? == preview.Faulted?
            && committed.scene.entries == preview.scene.entries
            && (preview.Built? ==> committed.scene.junk)
  {
    var cmds := log.commands + [c];
    assert AllCommands(AddCommand(log, c, true)) == cmds;
    var all := AllCommands(AddCommand(log, c, false));
    assert all == cmds + [Blank];
    assert all[..|all| - 1] == cmds;
  }

  /** A permanent append keeps the id invariant when the command is a draw
      that takes the counter's value, or is not a draw at all. */
  lemma AddKeepsIdsFresh(log: Log, c: Command)
    requires IdsFresh(log)
    requires c.Draw? ==> c.id == log.nextId
    ensures IdsFresh(AddCommand(log, c, false))
    ensures IdsFresh(AddCommand(log, c, true))
  {
    var r := AddCommand(log, c, false);
    assert Timeline(r) == log.commands + [c];
    assert DrawIdsBelow(log.commands, log.nextId) by {
      forall i | 0 <= i < |log.commands| ensures log.commands[i] == Timeline(log)[i] {}
    }
  }

  /** Committed draws have pairwise distinct ids. */
  lemma CommittedDrawIdsDistinct(log: Log, i: int, j: int)
    requires IdsFresh(log)
    requires 0 <= i < |log.commands| && 0 <= j < |log.commands| && i != j
    requires log.commands[i].Draw? && log.commands[j].Draw?
    ensures log.commands[i].id != log.commands[j].id
  {
    assert log.commands[i] == Timeline(log)[i] && log.commands[j] == Timeline(log)[j];
  }

  // ---------------------------------------------------------------------------
  // Undo, redo and new

  /** Undo pops the last committed command and pushes it onto the redo stack;
      redo pops the redo stack and appends its top to the committed commands. */
  lemma StacksMoveTop(log: Log)
    ensures CanUndo(log) ==>
              var n := |log.commands|;
              Undo(log).commands == log.commands[..n - 1] && Undo(log).undos == log.undos + [log.commands[n - 1]]
    ensures CanRedo(log) ==>
              var n := |log.undos|;
              Redo(log).commands == log.commands + [log.undos[n - 1]] && Redo(log).undos == log.undos[..n - 1]
  {
  }

  /** Redo exactly undoes an effective undo. */
  lemma RedoAfterUndo(log: Log)
    requires CanUndo(log)
    ensures Redo(Undo(log)) == log
  {
    var n := |log.commands|;
    assert log.commands[..n - 1] + [log.commands[n - 1]] == log.commands;
    assert (log.undos + [log.commands[n - 1]])[..|log.undos|] == log.undos;
  }

  /** Undo exactly undoes an effective redo. */
  lemma UndoAfterRedo(log: Log)
    requires CanRedo(log)
    ensures Undo(Redo(log)) == log
  {
    var n := |log.undos|;
    assert log.undos[..n - 1] + [log.undos[n - 1]] == log.undos;
    assert (log.commands + [log.undos[n - 1]])[..|log.commands|] == log.commands;
  }

  /** `k` clicks of the undo button. */
  function UndoTimes(log: Log, k: nat): Log
    decreases k
  {
    if k == 0 then log else Undo(UndoTimes(log, k - 1))
  }

  /** `k` clicks of the redo button. */
  function RedoTimes(log: Log, k: nat): Log
    decreases k
  {
    if k == 0 then log else RedoTimes(Redo(log), k - 1)
  }

  /** Undoing `k` committed commands leaves the first `|commands| - k`
      committed and keeps the timeline and the transient slot. */
  lemma {:induction false} UndoTimesPrefix(log: Log, k: nat)
    requires k <= |log.commands|
    ensures UndoTimes(log, k).commands == log.commands[..|log.commands| - k]
    ensures Timeline(UndoTimes(log, k)) == Timeline(log)
    ensures UndoTimes(log, k).transient == log.transient
    decreases k
  {
    if k > 0 {
      UndoTimesPrefix(log, k - 1);
      var n := |log.commands|;
      assert log.commands[..n - (k - 1)][..n - k] == log.commands[..n - k];
    }
  }

  /** As many redo clicks as undo clicks restore the log. */
  lemma {:induction false} RedoTimesAfterUndoTimes(log: Log, k: nat)
    requires k <= |log.commands|
    ensures RedoTimes(UndoTimes(log, k), k) == log
    decreases k
  {
    if k > 0 {
      var u := UndoTimes(log, k - 1);
      UndoTimesPrefix(log, k - 1);
      RedoAfterUndo(u);
      RedoTimesAfterUndoTimes(log, k - 1);
    }
  }

  /** Undoing every committed command shows the same scene as starting a new
      drawing. */
  lemma UndoAllLooksLikeNew(log: Log)
    ensures Render(UndoTimes(log, |log.commands|)) == Render(New(log))
  {
    UndoTimesPrefix(log, |log.commands|);
  }

  /** Undo, redo and "New" keep the id invariant. */
  lemma StackOpsKeepIdsFresh(log: Log)
    requires IdsFresh(log)
    ensures IdsFresh(Undo(log)) && IdsFresh(Redo(log)) && IdsFresh(New(log))
  {
  }
}
