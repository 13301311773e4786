/** Integer geometry of the planner: grid cells, axis-aligned rectangles with
    half-open extents (as `pygame.Rect` treats them), the 10x8 room and the
    pixel regions of the window that the input loop tests the mouse against. */
module Geometry {

  /** A strictly positive length, in cells or in pixels. */
  type Extent = n: int | n >= 1 witness 1

  /** A grid cell, addressed by column `x` and row `y`. */
  datatype Cell = Cell(x: int, y: int)

  /** The rectangle covering columns [left, left + width) and rows [top, top + height). */
  datatype Rect = Rect(left: int, top: int, width: Extent, height: Extent) {

    function Right(): int { left + width }

    function Bottom(): int { top + height }

    /** `Rect.collidepoint`: the right and bottom edges are excluded. */
    predicate ContainsPoint(x: int, y: int) {
      left <= x < Right() && top <= y < Bottom()
    }

    /** `Rect.colliderect`: rectangles that only touch along an edge do not collide. */
    predicate CollidesWith(other: Rect) {
      left < other.Right() && top < other.Bottom() && Right() > other.left && Bottom() > other.top
    }
  }

  /** Pixel size of one grid cell. */
  const GridSize: int := 64

  /** Room size in cells. */
  const RoomWidth: int := 10
  const RoomHeight: int := 8

  /** Window layout in pixels: the room area, the right panel and the bottom item list. */
  const GameAreaWidth: int := RoomWidth * GridSize
  const GameAreaHeight: int := RoomHeight * GridSize
  const RightPanelWidth: int := 300
  const BottomPanelHeight: int := 170
  const ScreenWidth: int := GameAreaWidth + RightPanelWidth

  const Room: Rect := Rect(0, 0, RoomWidth, RoomHeight)
  const GameArea: Rect := Rect(0, 0, GameAreaWidth, GameAreaHeight)
  const BottomPanel: Rect := Rect(0, GameAreaHeight, ScreenWidth, BottomPanelHeight)

  /** The source's out-of-bounds test: some edge of the rectangle crosses a wall of the room. */
  predicate OutsideRoom(r: Rect) {
    r.left < 0 || r.top < 0 || r.Right() > RoomWidth || r.Bottom() > RoomHeight
  }

  /** Two rectangles collide exactly when some point lies in both. */
  lemma CollideIffSharedPoint(a: Rect, b: Rect)
    ensures a.CollidesWith(b) <==> exists x, y :: a.ContainsPoint(x, y) && b.ContainsPoint(x, y)
  {
    if a.CollidesWith(b) {
      var x := if a.left < b.left then b.left else a.left;
      var y := if a.top < b.top then b.top else a.top;
      assert a.ContainsPoint(x, y) && b.ContainsPoint(x, y);
    }
  }

  /** Collision is symmetric. */
  lemma CollideSymmetric(a: Rect, b: Rect)
    ensures a.CollidesWith(b) <==> b.CollidesWith(a)
  {
  }

  /** A rectangle passes the out-of-bounds test exactly when every point it covers is a room cell. */
  lemma InRoomIffCellsInRoom(r: Rect)
    ensures !OutsideRoom(r) <==> forall x, y :: r.ContainsPoint(x, y) ==> Room.ContainsPoint(x, y)
  {
    if forall x, y :: r.ContainsPoint(x, y) ==> Room.ContainsPoint(x, y) {
      assert r.ContainsPoint(r.left, r.top);
      assert r.ContainsPoint(r.Right() - 1, r.Bottom() - 1);
    }
  }

  /** The mouse cell: integer floor division of the pixel position by the cell size. */
  function CursorCell(mx: int, my: int): (c: Cell)
    ensures c.x * GridSize <= mx < c.x * GridSize + GridSize
    ensures c.y * GridSize <= my < c.y * GridSize + GridSize
    ensures GameArea.ContainsPoint(mx, my) ==> Room.ContainsPoint(c.x, c.y)
  {
    Cell(mx / GridSize, my / GridSize)
  }

  /** The room area and the bottom item list never both contain the mouse. */
  lemma RegionsDisjoint(mx: int, my: int)
    ensures !(GameArea.ContainsPoint(mx, my) && BottomPanel.ContainsPoint(mx, my))
  {
  }
}
