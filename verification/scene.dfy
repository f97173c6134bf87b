/** The command records of quickdraw.js and the replay that folds them into the
    scene, the map from element id to shape and rectangle (`elementsById`). */
module Scene {
  import opened Wrappers
  import opened Geometry

  /** The three drawing tools, each of which produces one kind of shape. */
  datatype Shape = Line | Rectangle | Ellipse

  /** One entry of the command log.
      `Delete(None)` is a delete whose id is `null`, and `Blank` is the empty
      object the log leaves in its transient slot after every permanent
      commit: it has no tool, no id and no rectangle. */
  datatype Command =
    | Draw(shape: Shape, id: int, rect: Rect)
    | Move(target: int, offset: Point)
    | Delete(victim: Option<int>)
    | Blank

  /** A drawn element: its shape and its own copy of the rectangle. */
  datatype Element = Element(shape: Shape, rect: Rect)

  /** One property of the scene object: an element under its numeric id. */
  datatype Entry = Entry(id: int, element: Element)

  predicate IdsAscending(es: seq<Entry>)
  {
    forall i, j :: 0 <= i < j < |es| ==> es[i].id < es[j].id
  }

  /** The numbered properties of a JavaScript object, which it keeps and
      enumerates in ascending numeric order whatever the insertion order. */
  type Entries = es: seq<Entry> | IdsAscending(es) witness []

  /** The scene: the numbered elements, and whether the key `"undefined"` is
      present. Replaying `Blank` stores an entry with no shape and an empty
      rectangle under that key; it is never drawn and never hit, so only its
      presence is recorded. */
  datatype Scene = Scene(entries: Entries, junk: bool)

  const EmptyScene := Scene([], false)

  /** Every id of `es` is above `lo`. */
  predicate Above(es: seq<Entry>, lo: int)
  {
    forall i :: 0 <= i < |es| ==> lo < es[i].id
  }

  /** The element stored under `k`, if any. */
  function Find(es: seq<Entry>, k: int): (r: Option<Element>)
    ensures r.Some? ==> exists i :: 0 <= i < |es| && es[i] == Entry(k, r.value)
    ensures r.None? ==> forall i :: 0 <= i < |es| ==> es[i].id != k
  {
    if |es| == 0 then None
    else if es[0].id == k then Some(es[0].element)
    else
      var r := Find(es[1..], k);
      assert r.Some? ==> exists i :: 0 <= i < |es| && es[i] == Entry(k, r.value) by {
        if r.Some? {
          var i :| 0 <= i < |es[1..]| && es[1..][i] == Entry(k, r.value);
          assert es[i + 1] == Entry(k, r.value);
        }
      }
      r
  }

  /** In an ascending list the entry at a position is the one `Find` returns. */
  lemma FindAt(es: Entries, i: int)
    requires 0 <= i < |es|
    ensures Find(es, es[i].id) == Some(es[i].element)
  {
    var r := Find(es, es[i].id);
    if r.Some? {
      var j :| 0 <= j < |es| && es[j] == Entry(es[i].id, r.value);
      assert j == i;
    }
  }

  /** An entry below every id of an ascending list can go in front of it. */
  lemma ConsAscending(x: Entry, rest: seq<Entry>)
    requires IdsAscending(rest) && Above(rest, x.id)
    ensures IdsAscending([x] + rest)
    ensures forall lo :: lo < x.id ==> Above([x] + rest, lo)
    ensures ([x] + rest)[1..] == rest
  {
  }

  /** `es` with `k` bound to `e`: an existing entry is replaced in place,
      otherwise a new one is inserted at its ordered position. */
  function Put(es: Entries, k: int, e: Element): (r: Entries)
    ensures forall j :: Find(r, j) == if j == k then Some(e) else Find(es, j)
    ensures forall lo :: Above(es, lo) && lo < k ==> Above(r, lo)
  {
    if |es| == 0 || k < es[0].id then
      assert Above(es, k);
      ConsAscending(Entry(k, e), es);
      [Entry(k, e)] + es
    else if es[0].id == k then
      assert Above(es[1..], k);
      ConsAscending(Entry(k, e), es[1..]);
      [Entry(k, e)] + es[1..]
    else
      var rest := Put(es[1..], k, e);
      assert Above(es[1..], es[0].id);
      ConsAscending(es[0], rest);
      [es[0]] + rest
  }

  /** `es` without an entry for `k`. */
  function Remove(es: Entries, k: int): (r: Entries)
    ensures forall j :: Find(r, j) == if j == k then None else Find(es, j)
    ensures forall lo :: Above(es, lo) ==> Above(r, lo)
  {
    if |es| == 0 then []
    else if es[0].id == k then
      assert Find(es[1..], k).None? by {
        assert Above(es[1..], k);
      }
      es[1..]
    else
      var rest := Remove(es[1..], k);
      assert Above(es[1..], es[0].id);
      ConsAscending(es[0], rest);
      [es[0]] + rest
  }

  /** The element of the scene under id `k`, if any. */
  function Lookup(s: Scene, k: int): Option<Element>
  {
    Find(s.entries, k)
  }

  /** Outcome of a replay. A move whose target is absent dereferences
      `undefined` and throws; the scene built up to that command is what the
      editor is left holding, so a fault carries it. */
  datatype Replayed = Built(scene: Scene) | Faulted(scene: Scene)

  /** The rectangle moved by an offset; the extents are untouched. */
  function Displace(r: Rect, o: Point): Rect
  {
    r.(x := r.x + o.x, y := r.y + o.y)
  }

  /** The element id a command writes or removes, if any. */
  function Slot(c: Command): Option<int>
  {
    match c
    case Draw(_, id, _) => Some(id)
    case Move(target, _) => Some(target)
    case Delete(victim) => victim
    case Blank => None
  }

  /** One step of the replay fold: a draw inserts or overwrites its id with its
      rectangle, a move shifts the rectangle of its target, a delete removes its
      id (absent ids and `null` are ignored), and `Blank` adds the key
      `"undefined"`. `None` is the fault of a move whose target is absent. */
  function Apply(s: Scene, c: Command): (r: Option<Scene>)
    ensures r.None? <==> c.Move? && Lookup(s, c.target).None?
    ensures r.Some? ==> r.value.junk == (s.junk || c.Blank?)
    ensures r.Some? ==> forall k :: Some(k) != Slot(c) ==> Lookup(r.value, k) == Lookup(s, k)
  {
    match c
    case Draw(shape, id, rect) => Some(s.(entries := Put(s.entries, id, Element(shape, rect))))
    case Move(target, offset) =>
      if Lookup(s, target).None? then None
      else
        var e := Lookup(s, target).value;
        Some(s.(entries := Put(s.entries, target, e.(rect := Displace(e.rect, offset)))))
    case Delete(victim) =>
      Some(if victim.Some? then s.(entries := Remove(s.entries, victim.value)) else s)
    case Blank => Some(s.(junk := true))
  }

  /** The scene obtained by folding `cmds` from the empty scene, left to right.
      Whether or not the fold faults, every id in its scene was drawn by some
      command, and the key `"undefined"` is there only if a `Blank` was
      replayed. */
  function Replay(cmds: seq<Command>): (r: Replayed)
    ensures forall k :: Lookup(r.scene, k).Some? ==> exists i :: 0 <= i < |cmds| && DrawsKey(cmds[i], k)
    ensures r.scene.junk ==> Blank in cmds
    decreases |cmds|
  {
    if |cmds| == 0 then Built(EmptyScene)
    else
      var pre, c := cmds[..|cmds| - 1], cmds[|cmds| - 1];
      assert forall i :: 0 <= i < |pre| ==> pre[i] == cmds[i];
      assert c.Draw? ==> DrawsKey(cmds[|cmds| - 1], c.id);
      match Replay(pre)
      case Faulted(s) => Faulted(s)
      case Built(s) =>
        match Apply(s, c)
        case Some(s') => Built(s')
        case None => Faulted(s)
  }

  // ---------------------------------------------------------------------------
  // A description of the replayed scene that does not run the fold

  predicate DrawsKey(c: Command, k: int) { c.Draw? && c.id == k }

  predicate DeletesKey(c: Command, k: int) { c.Delete? && c.victim == Some(k) }

  /** Some command draws `k` and no later command deletes it. */
  predicate Live(cmds: seq<Command>, k: int)
  {
    exists i :: 0 <= i < |cmds| && DrawsKey(cmds[i], k) && NoDeleteAfter(cmds, i, k)
  }

  predicate NoDeleteAfter(cmds: seq<Command>, i: int, k: int)
  {
    forall j :: 0 <= i < j < |cmds| ==> !DeletesKey(cmds[j], k)
  }

  /** `cmds[i]` is the last command that draws or deletes `k`, and it draws. */
  predicate LastDraw(cmds: seq<Command>, i: int, k: int)
  {
    && 0 <= i < |cmds|
    && DrawsKey(cmds[i], k)
    && forall j :: i < j < |cmds| ==> !DrawsKey(cmds[j], k) && !DeletesKey(cmds[j], k)
  }

  /** The sum of the offsets of the moves of `k` in `cmds`. */
  function Drift(cmds: seq<Command>, k: int): Point
    decreases |cmds|
  {
    if |cmds| == 0 then Point(0, 0)
    else
      var d := Drift(cmds[..|cmds| - 1], k);
      var c := cmds[|cmds| - 1];
      if c.Move? && c.target == k then Point(d.x + c.offset.x, d.y + c.offset.y) else d
  }

  /** A move of `cmds[i]` whose target is not live when it is replayed. */
  predicate Dangling(cmds: seq<Command>, i: int)
    requires 0 <= i < |cmds|
  {
    cmds[i].Move? && !Live(cmds[..i], cmds[i].target)
  }

  // ---------------------------------------------------------------------------
  // Replay lemmas

  /** A successful replay of `cmds` replayed every prefix successfully. */
  lemma ReplayPrefixBuilt(cmds: seq<Command>)
    requires |cmds| > 0 && Replay(cmds).Built?
    ensures Replay(cmds[..|cmds| - 1]).Built?
    ensures Apply(Replay(cmds[..|cmds| - 1]).scene, cmds[|cmds| - 1]) == Some(Replay(cmds).scene)
  {
  }

  lemma LiveExtend(pre: seq<Command>, c: Command, k: int)
    ensures DrawsKey(c, k) ==> Live(pre + [c], k)
    ensures DeletesKey(c, k) ==> !Live(pre + [c], k)
    ensures !DrawsKey(c, k) && !DeletesKey(c, k) ==> (Live(pre + [c], k) <==> Live(pre, k))
  {
    var cmds := pre + [c];
    assert cmds[|pre|] == c;
    if DrawsKey(c, k) {
      assert DrawsKey(cmds[|pre|], k) && NoDeleteAfter(cmds, |pre|, k);
    }
    if DeletesKey(c, k) {
      forall i | 0 <= i < |cmds| && DrawsKey(cmds[i], k) ensures !NoDeleteAfter(cmds, i, k) {
        assert DeletesKey(cmds[|pre|], k);
      }
    }
    if !DrawsKey(c, k) && !DeletesKey(c, k) {
      if Live(pre, k) {
        var i :| 0 <= i < |pre| && DrawsKey(pre[i], k) && NoDeleteAfter(pre, i, k);
        assert cmds[i] == pre[i];
        assert NoDeleteAfter(cmds, i, k);
      }
      if Live(cmds, k) {
        var i :| 0 <= i < |cmds| && DrawsKey(cmds[i], k) && NoDeleteAfter(cmds, i, k);
        assert i < |pre| && cmds[i] == pre[i];
        assert NoDeleteAfter(pre, i, k) by {
          forall j | i < j < |pre| ensures !DeletesKey(pre[j], k) {
            assert cmds[j] == pre[j];
          }
        }
      }
    }
  }

  /** After a successful replay, id `k` is in the scene exactly when some
      command draws `k` and no later command deletes it. */
  lemma {:induction false} ReplayLive(cmds: seq<Command>, k: int)
    requires Replay(cmds).Built?
    ensures Lookup(Replay(cmds).scene, k).Some? <==> Live(cmds, k)
    decreases |cmds|
  {
    if |cmds| > 0 {
      var pre, c := cmds[..|cmds| - 1], cmds[|cmds| - 1];
      assert cmds == pre + [c];
      ReplayPrefixBuilt(cmds);
      ReplayLive(pre, k);
      LiveExtend(pre, c, k);
    }
  }

  /** `ReplayLive` for every id at once. */
  lemma ReplayLiveAll(cmds: seq<Command>)
    ensures Replay(cmds).Built? ==> forall k :: Lookup(Replay(cmds).scene, k).Some? <==> Live(cmds, k)
  {
    if Replay(cmds).Built? {
      forall k ensures Lookup(Replay(cmds).scene, k).Some? <==> Live(cmds, k) {
        ReplayLive(cmds, k);
      }
    }
  }

  lemma DriftExtend(cmds: seq<Command>, i: int, k: int)
    requires 0 <= i < |cmds| - 1
    ensures var c := cmds[|cmds| - 1];
            var d := Drift(cmds[i + 1..|cmds| - 1], k);
            Drift(cmds[i + 1..], k)
              == if c.Move? && c.target == k then Point(d.x + c.offset.x, d.y + c.offset.y) else d
  {
    assert cmds[i + 1..][..|cmds[i + 1..]| - 1] == cmds[i + 1..|cmds| - 1];
  }

  /** After a successful replay, the entry of a live id `k` carries the shape of
      the last command that draws `k` and that command's rectangle moved by the
      sum of the offsets of the later moves of `k`. */
  lemma {:induction false} ReplayEntry(cmds: seq<Command>, i: int, k: int)
    requires Replay(cmds).Built?
    requires LastDraw(cmds, i, k)
    ensures Lookup(Replay(cmds).scene, k).Some?
    ensures Lookup(Replay(cmds).scene, k).value == Element(cmds[i].shape, Displace(cmds[i].rect, Drift(cmds[i + 1..], k)))
    decreases |cmds|
  {
    var pre, c := cmds[..|cmds| - 1], cmds[|cmds| - 1];
    ReplayPrefixBuilt(cmds);
    if i < |cmds| - 1 {
      DriftExtend(cmds, i, k);
      assert pre[i + 1..] == cmds[i + 1..|cmds| - 1];
      assert LastDraw(pre, i, k) by {
        forall j | i < j < |pre| ensures !DrawsKey(pre[j], k) && !DeletesKey(pre[j], k) {
          assert pre[j] == cmds[j];
        }
      }
      ReplayEntry(pre, i, k);
      assert !DrawsKey(c, k) && !DeletesKey(c, k);
    } else {
      assert cmds[i + 1..] == [];
    }
  }

  /** After a successful replay, the key `"undefined"` is present exactly when
      a `Blank` was replayed. */
  lemma {:induction false} ReplayJunk(cmds: seq<Command>)
    requires Replay(cmds).Built?
    ensures Replay(cmds).scene.junk <==> Blank in cmds
    decreases |cmds|
  {
    if |cmds| > 0 {
      var pre, c := cmds[..|cmds| - 1], cmds[|cmds| - 1];
      assert cmds == pre + [c];
      ReplayPrefixBuilt(cmds);
      ReplayJunk(pre);
    }
  }

  lemma DanglingPrefix(cmds: seq<Command>, i: int)
    requires 0 <= i < |cmds| - 1
    ensures Dangling(cmds, i) <==> Dangling(cmds[..|cmds| - 1], i)
  {
    assert cmds[..|cmds| - 1][..i] == cmds[..i];
  }

  /** After a successful replay of all but the last command, the replay faults
      exactly when the last command is a dangling move. */
  lemma FaultAtLast(cmds: seq<Command>)
    requires |cmds| > 0 && Replay(cmds[..|cmds| - 1]).Built?
    ensures Replay(cmds).Faulted? <==> Dangling(cmds, |cmds| - 1)
  {
    var c := cmds[|cmds| - 1];
    if c.Move? {
      ReplayLive(cmds[..|cmds| - 1], c.target);
    }
  }

  /** A replay faults exactly when some move targets an id that is not live
      among the commands before it. */
  lemma {:induction false} ReplayFaultsIffDangling(cmds: seq<Command>)
    ensures Replay(cmds).Faulted? <==> exists i :: 0 <= i < |cmds| && Dangling(cmds, i)
    decreases |cmds|
  {
    if |cmds| > 0 {
      var n := |cmds| - 1;
      var pre := cmds[..n];
      ReplayFaultsIffDangling(pre);
      forall i | 0 <= i < n ensures Dangling(cmds, i) <==> Dangling(pre, i) {
        DanglingPrefix(cmds, i);
      }
      if Replay(pre).Built? {
        FaultAtLast(cmds);
      } else {
        var i :| 0 <= i < n && Dangling(pre, i);
        assert Dangling(cmds, i);
      }
    }
  }

  /** A faulted replay keeps the scene built by the commands before the first
      dangling move. */
  lemma {:induction false} ReplayFaultedScene(cmds: seq<Command>)
    requires Replay(cmds).Faulted?
    ensures exists i :: 0 <= i < |cmds| && cmds[i].Move?
              && Replay(cmds[..i]) == Built(Replay(cmds).scene)
              && Lookup(Replay(cmds).scene, cmds[i].target).None?
    decreases |cmds|
  {
    var n := |cmds| - 1;
    var pre := cmds[..n];
    if Replay(pre).Faulted? {
      ReplayFaultedScene(pre);
      var i :| 0 <= i < |pre| && pre[i].Move?
               && Replay(pre[..i]) == Built(Replay(pre).scene)
               && Lookup(Replay(pre).scene, pre[i].target).None?;
      assert pre[..i] == cmds[..i];
    } else {
      assert cmds[..n] == pre;
    }
  }

  /** A delete of `null` removes nothing: replaying it leaves the scene, and a
      fault, as they were. */
  lemma DeleteNullIsInert(cmds: seq<Command>)
    ensures Replay(cmds + [Delete(None)]) == Replay(cmds)
  {
    assert (cmds + [Delete(None)])[..|cmds|] == cmds;
  }
}
