/** Point hit-testing over a replayed scene (`hitTest` in quickdraw.js). */
module HitTesting {
  import opened Wrappers
  import opened Geometry
  import opened Scene

  /** A property key of the scene object, in the order `Object.keys` lists
      them: integer ids ascending, then the key `"undefined"`. */
  datatype Key = Id(id: int) | Undefined

  /** Whether an element's shape predicate holds at `p`: a line is hit within
      squared distance 4 of its segment, a rectangle or an ellipse when the
      point is inside it, boundary included. So a hit on a line is within one
      pixel of the line's rectangle, and a hit on a rectangle or an ellipse is
      inside the rectangle. */
  predicate Hits(e: Element, p: Point)
    ensures Hits(e, p) && e.shape.Line? ==> NearRect(p, e.rect, 1)
    ensures Hits(e, p) && !e.shape.Line? ==> RectContainsPoint(p, e.rect)
  {
    match e.shape
    case Line => SegmentHitNearRect(p, e.rect); DistanceToSegmentSquared(p, e.rect) < 4.0
    case Rectangle => RectContainsPoint(p, e.rect)
    case Ellipse => EllipseContainsPoint(p, e.rect)
  }

  /** Whether the entry under `key` satisfies `hit`; the shapeless entry under
      `"undefined"` never does. */
  predicate KeyHits(s: Scene, key: Key, hit: Element -> bool)
  {
    key.Id? && Lookup(s, key.id).Some? && hit(Lookup(s, key.id).value)
  }

  /** The keys of the scene in `Object.keys` order: the numbered properties in
      ascending order, then the string key `"undefined"`. */
  function ObjectKeys(s: Scene): (keys: seq<Key>)
    ensures |keys| == |s.entries| + if s.junk then 1 else 0
    ensures forall i :: 0 <= i < |s.entries| ==> keys[i] == Id(s.entries[i].id)
    ensures s.junk ==> keys[|keys| - 1] == Undefined
  {
    NumberKeys(s.entries) + if s.junk then [Undefined] else []
  }

  /** The numbered keys of a list of entries, in the list's order. */
  function NumberKeys(es: seq<Entry>): (keys: seq<Key>)
    ensures |keys| == |es|
    ensures forall i :: 0 <= i < |es| ==> keys[i] == Id(es[i].id)
  {
    if |es| == 0 then [] else NumberKeys(es[..|es| - 1]) + [Id(es[|es| - 1].id)]
  }

  /** The loop of `hitTest` over the first `i` keys, for any shape predicate
      `hit`: the keys are visited from the last to the first and the first
      element satisfying `hit` is returned, so the result is the largest such
      id, and `None` when there is none. */
  function ScanFromTop(s: Scene, hit: Element -> bool, i: nat): (r: Option<int>)
    requires i <= |ObjectKeys(s)|
    ensures r.Some? ==> Lookup(s, r.value).Some? && hit(Lookup(s, r.value).value)
    ensures r.Some? ==> forall j :: 0 <= j < i && KeyHits(s, ObjectKeys(s)[j], hit) ==> ObjectKeys(s)[j].id <= r.value
    ensures r.None? <==> forall j :: 0 <= j < i ==> !KeyHits(s, ObjectKeys(s)[j], hit)
  {
    if i == 0 then None
    else
      var key := ObjectKeys(s)[i - 1];
      if KeyHits(s, key, hit) then KeyAboveHits(s, hit, i - 1); Some(key.id)
      else ScanFromTop(s, hit, i - 1)
  }

  /** A key that satisfies `hit` has an id no smaller than any key before it
      that satisfies `hit`. */
  lemma KeyAboveHits(s: Scene, hit: Element -> bool, i: nat)
    requires i < |ObjectKeys(s)| && KeyHits(s, ObjectKeys(s)[i], hit)
    ensures forall j :: 0 <= j < i && KeyHits(s, ObjectKeys(s)[j], hit) ==> ObjectKeys(s)[j].id <= ObjectKeys(s)[i].id
  {
    KeyFindsEntry(s, i);
  }

  /** A numbered key names an element of the scene, the one at its position,
      and its id exceeds the id of every numbered key before it. */
  lemma KeyFindsEntry(s: Scene, j: nat)
    requires j < |ObjectKeys(s)|
    ensures ObjectKeys(s)[j].Id? ==> j < |s.entries| && Lookup(s, ObjectKeys(s)[j].id) == Some(s.entries[j].element)
    ensures ObjectKeys(s)[j].Id? ==> forall i :: 0 <= i < j ==> ObjectKeys(s)[i].id < ObjectKeys(s)[j].id
  {
    var keys := ObjectKeys(s);
    if j < |s.entries| {
      FindAt(s.entries, j);
      forall i | 0 <= i < j
        ensures keys[i].id < keys[j].id
      {
        assert keys[i] == Id(s.entries[i].id);
      }
    }
  }

  /** Every numbered element of the scene sits at some position of the keys. */
  lemma KeyPosition(s: Scene, k: int)
    requires Lookup(s, k).Some?
    ensures exists j :: 0 <= j < |s.entries| && ObjectKeys(s)[j] == Id(k)
  {
    var j :| 0 <= j < |s.entries| && s.entries[j] == Entry(k, Lookup(s, k).value);
    assert ObjectKeys(s)[j] == Id(k);
  }

  /** The scan over all keys, stated in terms of the elements. */
  lemma ScanAll(s: Scene, hit: Element -> bool)
    ensures var r := ScanFromTop(s, hit, |ObjectKeys(s)|);
            && (r.Some? ==> forall k :: Lookup(s, k).Some? && hit(Lookup(s, k).value) ==> k <= r.value)
            && (r.None? <==> forall k :: Lookup(s, k).Some? ==> !hit(Lookup(s, k).value))
  {
    var keys := ObjectKeys(s);
    forall k | Lookup(s, k).Some?
      ensures exists j :: 0 <= j < |keys| && keys[j] == Id(k) && (hit(Lookup(s, k).value) ==> KeyHits(s, keys[j], hit))
    {
      KeyPosition(s, k);
      var j :| 0 <= j < |s.entries| && keys[j] == Id(k);
      assert hit(Lookup(s, k).value) ==> KeyHits(s, keys[j], hit);
    }
  }

  /** The scan over all keys for any shape predicate `hit`: the largest id
      whose element satisfies `hit`, and `None` when no element does. */
  function Topmost(s: Scene, hit: Element -> bool): (r: Option<int>)
    ensures r.Some? ==> Lookup(s, r.value).Some? && hit(Lookup(s, r.value).value)
    ensures r.Some? ==> forall k :: Lookup(s, k).Some? && hit(Lookup(s, k).value) ==> k <= r.value
    ensures r.None? <==> forall k :: Lookup(s, k).Some? ==> !hit(Lookup(s, k).value)
  {
    ScanAll(s, hit);
    ScanFromTop(s, hit, |ObjectKeys(s)|)
  }

  /** The id of the topmost element hit at `p`: the largest id whose element is
      hit, and `None` when no element is hit. */
  function HitTest(s: Scene, p: Point): (r: Option<int>)
    ensures r.Some? ==> Lookup(s, r.value).Some? && Hits(Lookup(s, r.value).value, p)
    ensures r.Some? ==> forall k :: Lookup(s, k).Some? && Hits(Lookup(s, k).value, p) ==> k <= r.value
    ensures r.None? <==> forall k :: Lookup(s, k).Some? ==> !Hits(Lookup(s, k).value, p)
  {
    Topmost(s, e => Hits(e, p))
  }

  /** Describing an element's rectangle from its opposite corner does not
      change whether it is hit. */
  lemma HitsFlipInvariant(e: Element, p: Point)
    ensures Hits(e.(rect := Flip(e.rect)), p) == Hits(e, p)
  {
    match e.shape
    case Line => SegmentDistanceFlipInvariant(p, e.rect);
    case Rectangle => RectContainsFlipInvariant(p, e.rect);
    case Ellipse => EllipseContainsFlipInvariant(p, e.rect);
  }

  /** Both ends of a line are on it, so pressing on either end hits it. */
  lemma LineHitAtEnds(r: Rect)
    ensures Hits(Element(Line, r), Start(r)) && Hits(Element(Line, r), End(r))
  {
    SegmentDistanceZeroAtEndpoints(r);
  }
}
