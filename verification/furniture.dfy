/** Catalog entries, placed items and the placement test: the rotation-aware
    size, the one-row "floor strip" an item blocks, and `check_collision`. */
module Furniture {
  import opened Geometry

  /** A catalog entry: its name and its unrotated size in cells. */
  datatype Kind = Kind(name: string, width: Extent, height: Extent)

  /** A width/height pair in cells. */
  datatype Size = Size(w: Extent, h: Extent)

  /** One item in the room: which catalog entry, its anchor (top-left) cell and
      its rotation state (0 for the base orientation, 1 for a quarter turn). */
  datatype Placement = Placement(kind: Kind, anchor: Cell, rotation: int)

  function BaseSize(k: Kind): Size { Size(k.width, k.height) }

  /** Exchanges width and height. */
  function Swap(s: Size): Size { Size(s.h, s.w) }

  /** `get_rotated_size`: width and height change places when the rotation is odd. */
  function RotatedSize(k: Kind, rotation: int): (s: Size)
    ensures s.w * s.h == k.width * k.height
    ensures s == BaseSize(k) || s == Swap(BaseSize(k))
  {
    if rotation % 2 == 1 then Swap(BaseSize(k)) else BaseSize(k)
  }

  /** Rotation by an odd number of quarter turns swaps the base size, an even number keeps it,
      and two swaps give the base size back. */
  lemma RotatedSizeSwapsIffOdd(k: Kind, rotation: int)
    ensures RotatedSize(k, rotation) == Swap(BaseSize(k)) <==> (rotation % 2 == 1 || k.width == k.height)
    ensures rotation % 2 == 0 ==> RotatedSize(k, rotation) == BaseSize(k)
    ensures Swap(RotatedSize(k, 1)) == RotatedSize(k, 0)
  {
  }

  /** The floor strip of an item at `anchor`: its rotated width, one row tall. Collision and
      the boundary test look only at this strip, whatever the item's height. */
  function Strip(k: Kind, anchor: Cell, rotation: int): (r: Rect)
    ensures r.ContainsPoint(anchor.x, anchor.y)
    ensures forall x, y :: r.ContainsPoint(x, y) <==> y == anchor.y && anchor.x <= x < anchor.x + RotatedSize(k, rotation).w
  {
    Rect(anchor.x, anchor.y, RotatedSize(k, rotation).w, 1)
  }

  function FloorStrip(p: Placement): Rect {
    Strip(p.kind, p.anchor, p.rotation)
  }

  /** Whether the strip overlaps the strip of some entry of `placed`, scanned in list order. */
  function OverlapsAny(strip: Rect, placed: seq<Placement>): (hit: bool)
    ensures hit <==> exists i :: 0 <= i < |placed| && strip.CollidesWith(FloorStrip(placed[i]))
  {
    if |placed| == 0 then false
    else if strip.CollidesWith(FloorStrip(placed[0])) then true
    else
      var rest := OverlapsAny(strip, placed[1..]);
      assert forall i :: 1 <= i < |placed| ==> placed[i] == placed[1..][i - 1];
      rest
  }

  /** `check_collision`: true (not placeable) when the candidate's strip leaves the room or
      overlaps the strip of an item already placed. */
  function CheckCollision(k: Kind, anchor: Cell, rotation: int, placed: seq<Placement>): (blocked: bool)
    ensures blocked <==>
      (exists x, y :: Strip(k, anchor, rotation).ContainsPoint(x, y) && !Room.ContainsPoint(x, y))
      || (exists i :: 0 <= i < |placed| && Strip(k, anchor, rotation).CollidesWith(FloorStrip(placed[i])))
  {
    var strip := Strip(k, anchor, rotation);
    InRoomIffCellsInRoom(strip);
    OutsideRoom(strip) || OverlapsAny(strip, placed)
  }

  /** The boundary test in the anchor's coordinates: out of bounds exactly when
      x < 0, y < 0, x + rotated width > 10 or y + 1 > 8. */
  lemma BoundaryTest(k: Kind, anchor: Cell, rotation: int)
    ensures CheckCollision(k, anchor, rotation, []) <==>
      anchor.x < 0 || anchor.y < 0 || anchor.x + RotatedSize(k, rotation).w > RoomWidth || anchor.y + 1 > RoomHeight
  {
    var strip := Strip(k, anchor, rotation);
    InRoomIffCellsInRoom(strip);
  }

  /** A strip ending exactly at the right wall is accepted; one cell further right is rejected. */
  lemma RightWallEdge(k: Kind, y: int, rotation: int, placed: seq<Placement>)
    requires 0 <= y < RoomHeight
    requires RotatedSize(k, rotation).w <= RoomWidth
    ensures !CheckCollision(k, Cell(RoomWidth - RotatedSize(k, rotation).w, y), rotation, [])
    ensures CheckCollision(k, Cell(RoomWidth - RotatedSize(k, rotation).w + 1, y), rotation, placed)
  {
    BoundaryTest(k, Cell(RoomWidth - RotatedSize(k, rotation).w, y), rotation);
    var far := Cell(RoomWidth - RotatedSize(k, rotation).w + 1, y);
    assert Strip(k, far, rotation).ContainsPoint(RoomWidth, y);
  }

  /** Two floor strips collide exactly when they lie in the same row and their
      half-open column intervals [x, x + w) intersect. */
  lemma StripsCollideIff(p: Placement, q: Placement)
    ensures FloorStrip(p).CollidesWith(FloorStrip(q)) <==>
      p.anchor.y == q.anchor.y
      && p.anchor.x < q.anchor.x + RotatedSize(q.kind, q.rotation).w
      && q.anchor.x < p.anchor.x + RotatedSize(p.kind, p.rotation).w
  {
  }

  /** Items anchored in different rows never collide, however tall they are drawn. */
  lemma DifferentRowsNeverCollide(p: Placement, q: Placement)
    requires p.anchor.y != q.anchor.y
    ensures !FloorStrip(p).CollidesWith(FloorStrip(q))
  {
  }

  /** An item whose strip ends where the other's begins does not collide with it. */
  lemma EdgeAdjacentNeverCollide(p: Placement, q: Placement)
    requires p.anchor.x + RotatedSize(p.kind, p.rotation).w == q.anchor.x
    ensures !FloorStrip(p).CollidesWith(FloorStrip(q))
    ensures !FloorStrip(q).CollidesWith(FloorStrip(p))
  {
  }

  /** The same item at the same anchor always collides, so it is never placeable twice. */
  lemma SameAnchorAlwaysCollides(k: Kind, anchor: Cell, rotation: int, placed: seq<Placement>)
    requires Placement(k, anchor, rotation) in placed
    ensures CheckCollision(k, anchor, rotation, placed)
  {
    var i :| 0 <= i < |placed| && placed[i] == Placement(k, anchor, rotation);
    assert Strip(k, anchor, rotation).CollidesWith(FloorStrip(placed[i]));
  }
}
