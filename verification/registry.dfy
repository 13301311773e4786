/** The session's list of placed items: the invariant every stored list keeps,
    appending a placeable item (left click) and removing the item under the
    cursor (right click). */
module Registry {
  import opened Common
  import opened Geometry
  import opened Furniture

  /** Every item's floor strip lies inside the room and no two strips overlap. */
  predicate Valid(ps: seq<Placement>) {
    && (forall i :: 0 <= i < |ps| ==> !OutsideRoom(FloorStrip(ps[i])))
    && (forall i, j :: 0 <= i < j < |ps| ==> !FloorStrip(ps[i]).CollidesWith(FloorStrip(ps[j])))
  }

  /** An item may be appended exactly when the list stays valid with it: the collision test
      rejects nothing the invariant would allow and admits nothing it forbids. */
  lemma PlaceableIffStaysValid(ps: seq<Placement>, p: Placement)
    requires Valid(ps)
    ensures Valid(ps + [p]) <==> !CheckCollision(p.kind, p.anchor, p.rotation, ps)
  {
    var qs := ps + [p];
    var n := |ps|;
    assert qs[n] == p;
    if Valid(qs) {
      InRoomIffCellsInRoom(FloorStrip(p));
      forall i | 0 <= i < n
        ensures !FloorStrip(p).CollidesWith(FloorStrip(ps[i]))
      {
        assert qs[i] == ps[i];
        assert !FloorStrip(qs[i]).CollidesWith(FloorStrip(qs[n]));
        CollideSymmetric(FloorStrip(p), FloorStrip(ps[i]));
      }
    } else {
      if !CheckCollision(p.kind, p.anchor, p.rotation, ps) {
        InRoomIffCellsInRoom(FloorStrip(p));
        forall i, j | 0 <= i < j < |qs|
          ensures !FloorStrip(qs[i]).CollidesWith(FloorStrip(qs[j]))
        {
          if j == n {
            CollideSymmetric(FloorStrip(p), FloorStrip(ps[i]));
          }
        }
        assert false;
      }
    }
  }

  /** Left click in the room: appends the candidate when `check_collision` reports it placeable,
      otherwise leaves the list as it was. */
  function Place(ps: seq<Placement>, k: Kind, anchor: Cell, rotation: int): (r: seq<Placement>)
    ensures |r| == |ps| + 1 <==> !CheckCollision(k, anchor, rotation, ps)
    ensures |r| == |ps| ==> r == ps
    ensures CheckCollision(k, anchor, rotation, ps) ==> r == ps
    ensures |r| == |ps| + 1 ==> r[..|ps|] == ps && r[|ps|] == Placement(k, anchor, rotation)
    ensures Valid(ps) ==> Valid(r)
  {
    if CheckCollision(k, anchor, rotation, ps) then ps
    else
      var r := ps + [Placement(k, anchor, rotation)];
      assert Valid(ps) ==> Valid(r) by {
        if Valid(ps) { PlaceableIffStaysValid(ps, Placement(k, anchor, rotation)); }
      }
      assert r[..|ps|] == ps;
      r
  }

  /** Whether the item's floor strip contains the cell (the right-click hit test). */
  predicate Hit(p: Placement, c: Cell) {
    FloorStrip(p).ContainsPoint(c.x, c.y)
  }

  /** The ascending depth order on anchors: by row, then by column. */
  predicate AnchorLess(a: Cell, b: Cell) {
    a.y < b.y || (a.y == b.y && a.x < b.x)
  }

  /** `i` comes before `j` when the list is sorted by descending (row, column) with a stable sort:
      a larger anchor first, and on equal anchors the earlier entry first. */
  predicate DescendingFirst(ps: seq<Placement>, i: nat, j: nat)
    requires i < |ps| && j < |ps|
  {
    AnchorLess(ps[j].anchor, ps[i].anchor) || (ps[i].anchor == ps[j].anchor && i <= j)
  }

  /** The entry a right click on `c` removes: among the entries whose strip contains `c`,
      the first one in stable descending (row, column) order; none when nothing is hit. */
  function Victim(ps: seq<Placement>, c: Cell): (v: Option<nat>)
    ensures v.None? <==> forall i :: 0 <= i < |ps| ==> !Hit(ps[i], c)
    ensures v.Some? ==> v.value < |ps| && Hit(ps[v.value], c)
    ensures v.Some? ==> forall j :: 0 <= j < |ps| && Hit(ps[j], c) ==> DescendingFirst(ps, v.value, j)
  {
    if |ps| == 0 then None
    else
      var n := |ps| - 1;
      var rest := Victim(ps[..n], c);
      assert forall j :: 0 <= j < n ==> ps[..n][j] == ps[j];
      if !Hit(ps[n], c) then rest
      else match rest
        case None => Some(n)
        case Some(i) => if AnchorLess(ps[i].anchor, ps[n].anchor) then Some(n) else Some(i)
  }

  /** The list without the entry at index `i`. */
  function Without(ps: seq<Placement>, i: nat): (r: seq<Placement>)
    requires i < |ps|
    ensures |r| == |ps| - 1
    ensures forall j :: 0 <= j < i ==> r[j] == ps[j]
    ensures forall j :: i <= j < |r| ==> r[j] == ps[j + 1]
    ensures multiset(r) + multiset{ps[i]} == multiset(ps)
  {
    assert ps == ps[..i] + [ps[i]] + ps[i + 1..];
    ps[..i] + ps[i + 1..]
  }

  /** Dropping one entry keeps a valid list valid. */
  lemma WithoutKeepsValid(ps: seq<Placement>, i: nat)
    requires i < |ps| && Valid(ps)
    ensures Valid(Without(ps, i))
  {
    var r := Without(ps, i);
    forall a, b | 0 <= a < b < |r|
      ensures !FloorStrip(r[a]).CollidesWith(FloorStrip(r[b]))
    {
      var a' := if a < i then a else a + 1;
      var b' := if b < i then b else b + 1;
      assert r[a] == ps[a'] && r[b] == ps[b'];
    }
  }

  /** Right click in the room: removes at most one entry, the victim; all others keep
      their relative order. */
  function RemoveAt(ps: seq<Placement>, c: Cell): (r: seq<Placement>)
    ensures (forall i :: 0 <= i < |ps| ==> !Hit(ps[i], c)) ==> r == ps
    ensures Victim(ps, c).Some? ==> r == Without(ps, Victim(ps, c).value)
    ensures |r| == |ps| || |r| == |ps| - 1
    ensures multiset(r) <= multiset(ps)
    ensures Valid(ps) ==> Valid(r)
  {
    match Victim(ps, c)
    case None => ps
    case Some(i) =>
      if Valid(ps) then WithoutKeepsValid(ps, i); Without(ps, i) else Without(ps, i)
  }

  /** In a valid list at most one item's strip contains any given cell. */
  lemma AtMostOneHit(ps: seq<Placement>, c: Cell, i: nat, j: nat)
    requires Valid(ps) && i < |ps| && j < |ps|
    requires Hit(ps[i], c) && Hit(ps[j], c)
    ensures i == j
  {
    if i != j {
      CollideIffSharedPoint(FloorStrip(ps[i]), FloorStrip(ps[j]));
      CollideSymmetric(FloorStrip(ps[i]), FloorStrip(ps[j]));
    }
  }

  /** In a valid list a right click removes exactly the one item whose strip holds the cell,
      so the descending scan order never matters there. */
  lemma RemoveAtValidRemovesOccupant(ps: seq<Placement>, c: Cell, i: nat)
    requires Valid(ps) && i < |ps| && Hit(ps[i], c)
    ensures RemoveAt(ps, c) == Without(ps, i)
  {
    var v := Victim(ps, c);
    AtMostOneHit(ps, c, i, v.value);
  }

  /** Right-clicking the anchor of an item just placed removes it again. */
  lemma RemoveUndoesPlace(ps: seq<Placement>, k: Kind, anchor: Cell, rotation: int)
    requires Valid(ps)
    requires !CheckCollision(k, anchor, rotation, ps)
    ensures RemoveAt(Place(ps, k, anchor, rotation), anchor) == ps
  {
    var r := Place(ps, k, anchor, rotation);
    assert Hit(r[|ps|], anchor);
    RemoveAtValidRemovesOccupant(r, anchor, |ps|);
    assert Without(r, |ps|) == ps;
  }
}
