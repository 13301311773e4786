/** The planner session: the state the game loop keeps between frames and what
    one frame of input events does to it. The mouse position is read once per
    frame, as the loop does; the embedding model, the square root and the
    feedback writer are parameters. */
module Session {
  import opened Common
  import opened Geometry
  import opened Furniture
  import opened Registry
  import opened DepthSort
  import opened Similarity
  import opened Evaluate

  /** Layout of the bottom item list, in pixels, and the wheel's scroll step. */
  const ItemWidth: int := 180
  const ItemHeight: int := 70
  const ScrollStep: int := 30

  /** What the right panel shows after an evaluation. */
  datatype Report = Report(score: real, description: string, feedback: string)

  /** A clickable entry of the bottom list: the catalog index and its rectangle on screen. */
  datatype Button = Button(index: nat, rect: Rect)

  /** The loop's variables: placed items, selected catalog index, rotation, list scroll offset,
      the buttons laid out by the last drawing pass, and the last evaluation report. */
  datatype State = State(placed: seq<Placement>, selected: nat, rotation: int, scroll: int,
                         buttons: seq<Button>, report: Option<Report>)

  /** The outside services: the embedding model, the square root used for norms, the customer
      request (as text and embedded) and the feedback writer. */
  datatype Services = Services(embed: string -> seq<real>, root: real -> real, requestText: string,
                               request: seq<real>, feedback: (string, string, real) -> string)

  /** The input events the loop reacts to; any other event leaves the state alone. */
  datatype Event = Wheel(dy: int) | KeyDown(key: char) | MouseDown(button: int) | Other

  /** The state before the first frame: nothing placed, the first item selected unrotated,
      the list unscrolled, no buttons drawn yet, no report. */
  function Initial(): State {
    State([], 0, 0, 0, [], None)
  }

  // ---------------------------------------------------------------- rotation

  /** The R key: the rotation advances modulo 2, so it flips between 0 and 1. */
  function Toggle(r: int): (t: int)
    ensures t == 0 || t == 1
    ensures t % 2 != r % 2
  {
    (r + 1) % 2
  }

  /** Pressing R twice restores the rotation, and each press swaps the item's footprint. */
  lemma ToggleTwice(k: Kind, r: int)
    requires r == 0 || r == 1
    ensures Toggle(Toggle(r)) == r
    ensures RotatedSize(k, Toggle(r)) == Swap(RotatedSize(k, r))
  {
  }

  // ---------------------------------------------------------------- scrolling

  /** How far the item list can scroll left: the width of its ceil(n/2) columns beyond the
      window width, or 0 when they fit. */
  function ScrollMax(n: nat): (m: int)
    ensures m >= 0
    ensures m == 0 <==> n <= 10
    ensures n > 10 ==> m + ScreenWidth == ((n + 1) / 2) * ItemWidth
  {
    var total := ((n + 1) / 2) * ItemWidth;
    if total - ScreenWidth > 0 then total - ScreenWidth else 0
  }

  /** The clamp after a wheel event: the offset is pulled into [-ScrollMax(n), 0], and an
      offset already inside is kept. */
  function Clamp(s: int, n: nat): (c: int)
    ensures -ScrollMax(n) <= c <= 0
    ensures -ScrollMax(n) <= s <= 0 ==> c == s
    ensures s > 0 ==> c == 0
    ensures s < -ScrollMax(n) ==> c == -ScrollMax(n)
  {
    var upper := if s < 0 then s else 0;
    if upper > -ScrollMax(n) then upper else -ScrollMax(n)
  }

  /** Clamping is a projection: no point in range is closer to the raw offset, and clamping
      twice changes nothing. */
  lemma ClampNearest(s: int, n: nat, t: int)
    requires -ScrollMax(n) <= t <= 0
    ensures Clamp(Clamp(s, n), n) == Clamp(s, n)
    ensures Distance(Clamp(s, n), s) <= Distance(t, s)
  {
  }

  function Distance(a: int, b: int): nat {
    if a < b then b - a else a - b
  }

  // ---------------------------------------------------------------- item list buttons

  /** The screen rectangle of item `i`: two rows, column i/2, shifted by the scroll offset,
      10 pixels of margin, 170x60 pixels, below the room area. */
  function ButtonRect(i: nat, scroll: int): Rect {
    Rect((i / 2) * ItemWidth + scroll + 10, (i % 2) * ItemHeight + 10 + GameAreaHeight,
         ItemWidth - 10, ItemHeight - 10)
  }

  /** Only items whose column overlaps the window get a button. */
  predicate Shown(i: nat, scroll: int) {
    var x := (i / 2) * ItemWidth + scroll + 10;
    x + ItemWidth > 0 && x < ScreenWidth
  }

  /** The buttons of a catalog of `n` items at a scroll offset, in catalog order: exactly the
      shown items, each with its rectangle. */
  function Layout(n: nat, scroll: int): (bs: seq<Button>)
    ensures forall j :: 0 <= j < |bs| ==> bs[j].index < n && Shown(bs[j].index, scroll)
    ensures forall j :: 0 <= j < |bs| ==> bs[j].rect == ButtonRect(bs[j].index, scroll)
    ensures forall j, k :: 0 <= j < k < |bs| ==> bs[j].index < bs[k].index
  {
    if n == 0 then []
    else
      var rest := Layout(n - 1, scroll);
      if Shown(n - 1, scroll) then
        var bs := rest + [Button(n - 1, ButtonRect(n - 1, scroll))];
        assert forall j :: 0 <= j < |rest| ==> bs[j] == rest[j];
        bs
      else rest
  }

  /** Every shown item has a button. */
  lemma {:induction false} LayoutCovers(n: nat, scroll: int, i: nat)
    requires i < n && Shown(i, scroll)
    ensures exists j :: 0 <= j < |Layout(n, scroll)| && Layout(n, scroll)[j].index == i
  {
    var rest := Layout(n - 1, scroll);
    if i == n - 1 {
      assert Layout(n, scroll)[|rest|].index == i;
    } else {
      LayoutCovers(n - 1, scroll, i);
      var j :| 0 <= j < |rest| && rest[j].index == i;
      assert Layout(n, scroll)[j] == rest[j];
    }
  }

  /** Two different items' button rectangles never share a pixel. */
  lemma ButtonsDisjoint(i: nat, j: nat, scroll: int, x: int, y: int)
    requires ButtonRect(i, scroll).ContainsPoint(x, y) && ButtonRect(j, scroll).ContainsPoint(x, y)
    ensures i == j
  {
    assert i / 2 == j / 2;
    assert i % 2 == j % 2;
  }

  /** Every button lies in the rows of the bottom panel. */
  lemma ButtonsInBottomRows(i: nat, scroll: int)
    ensures BottomPanel.top <= ButtonRect(i, scroll).top
    ensures ButtonRect(i, scroll).Bottom() <= BottomPanel.Bottom()
  {
  }

  /** The click test on the list: the index of the first button containing the point. */
  function ButtonAt(bs: seq<Button>, x: int, y: int): (hit: Option<nat>)
    ensures hit.None? <==> forall j :: 0 <= j < |bs| ==> !bs[j].rect.ContainsPoint(x, y)
    ensures hit.Some? ==>
      exists j :: 0 <= j < |bs| && bs[j].rect.ContainsPoint(x, y) && bs[j].index == hit.value
        && (forall k :: 0 <= k < j ==> !bs[k].rect.ContainsPoint(x, y))
  {
    if |bs| == 0 then None
    else if bs[0].rect.ContainsPoint(x, y) then Some(bs[0].index)
    else
      var rest := ButtonAt(bs[1..], x, y);
      assert forall j :: 1 <= j < |bs| ==> bs[j] == bs[1..][j - 1];
      rest
  }

  /** On a laid-out list a click selects exactly the item whose button holds the point. */
  lemma ButtonAtLayout(n: nat, scroll: int, x: int, y: int, i: nat)
    requires i < n && Shown(i, scroll) && ButtonRect(i, scroll).ContainsPoint(x, y)
    ensures ButtonAt(Layout(n, scroll), x, y) == Some(i)
  {
    var bs := Layout(n, scroll);
    LayoutCovers(n, scroll, i);
    var j :| 0 <= j < |bs| && bs[j].index == i;
    assert bs[j].rect.ContainsPoint(x, y);
    var hit := ButtonAt(bs, x, y);
    var k :| 0 <= k < |bs| && bs[k].rect.ContainsPoint(x, y) && bs[k].index == hit.value;
    ButtonsDisjoint(i, bs[k].index, scroll, x, y);
  }

  // ---------------------------------------------------------------- the session invariant

  /** Every index the loop may look up in the catalog is in range. */
  predicate Indexed(catalog: seq<Kind>, s: State) {
    && s.selected < |catalog|
    && forall j :: 0 <= j < |s.buttons| ==> s.buttons[j].index < |catalog|
  }

  /** What holds between frames: indices in range, rotation 0 or 1, scroll offset in range and a
      valid list of placed items. */
  predicate Inv(catalog: seq<Kind>, s: State) {
    && Indexed(catalog, s)
    && (s.rotation == 0 || s.rotation == 1)
    && -ScrollMax(|catalog|) <= s.scroll <= 0
    && Valid(s.placed)
  }

  /** The loop starts in the invariant, given the non-empty catalog it insists on. */
  lemma InitialInv(catalog: seq<Kind>)
    requires |catalog| > 0
    ensures Inv(catalog, Initial())
  {
  }

  // ---------------------------------------------------------------- one event

  /** The E key: evaluate the design, ask for feedback on it and keep the report. */
  function Evaluated(sv: Services, s: State): (r: Result<State, ScoreError>)
    ensures r.Err? <==> EvaluateDesign(sv.embed, sv.root, sv.request, s.placed).Err?
    ensures r.Ok? ==> r.value.(report := s.report) == s && r.value.report.Some?
    ensures r.Ok? ==>
      var ev := EvaluateDesign(sv.embed, sv.root, sv.request, s.placed).value;
      r.value.report.value == Report(ev.score, ev.description, sv.feedback(sv.requestText, ev.description, ev.score))
  {
    match EvaluateDesign(sv.embed, sv.root, sv.request, s.placed)
    case Err(e) => Err(e)
    case Ok(ev) =>
      Ok(s.(report := Some(Report(ev.score, ev.description, sv.feedback(sv.requestText, ev.description, ev.score)))))
  }

  /** A left click on the bottom list: the hit button's item becomes selected, unrotated. */
  function Select(s: State, x: int, y: int): (r: State)
    ensures ButtonAt(s.buttons, x, y).None? ==> r == s
    ensures ButtonAt(s.buttons, x, y).Some? ==>
      r == s.(selected := ButtonAt(s.buttons, x, y).value, rotation := 0)
  {
    match ButtonAt(s.buttons, x, y)
    case None => s
    case Some(i) => s.(selected := i, rotation := 0)
  }

  /** One event with the mouse at (x, y), placement re-checked at the click. Only the E key can
      fail, exactly when the evaluation does; each event touches only its own variables. */
  function Step(catalog: seq<Kind>, sv: Services, s: State, x: int, y: int, e: Event): (r: Result<State, ScoreError>)
    requires Indexed(catalog, s)
    ensures r.Err? <==> e == KeyDown('e') && EvaluateDesign(sv.embed, sv.root, sv.request, s.placed).Err?
    ensures r.Ok? ==> Indexed(catalog, r.value)
    ensures Inv(catalog, s) && r.Ok? ==> Inv(catalog, r.value)
    ensures e.Wheel? ==> r.Ok? && r.value.(scroll := s.scroll) == s
    ensures e.Wheel? && BottomPanel.ContainsPoint(x, y) ==> r.value.scroll == Clamp(s.scroll + e.dy * ScrollStep, |catalog|)
    ensures e.Wheel? && !BottomPanel.ContainsPoint(x, y) ==> r == Ok(s)
    ensures e == KeyDown('r') ==> r == Ok(s.(rotation := Toggle(s.rotation)))
    ensures e == MouseDown(1) && GameArea.ContainsPoint(x, y) ==>
      r.Ok? && r.value.(placed := s.placed) == s
      && r.value.placed == Place(s.placed, catalog[s.selected], CursorCell(x, y), s.rotation)
    ensures e == MouseDown(3) ==> r.Ok? && r.value.(placed := s.placed) == s && multiset(r.value.placed) <= multiset(s.placed)
    ensures e == MouseDown(3) && GameArea.ContainsPoint(x, y) ==> r.value.placed == RemoveAt(s.placed, CursorCell(x, y))
    ensures e == KeyDown('e') && r.Ok? ==> r.value.(report := s.report) == s
    ensures e == KeyDown('e') ==> r == Evaluated(sv, s)
    ensures e == MouseDown(1) && BottomPanel.ContainsPoint(x, y) ==>
      r.Ok? && r.value.(selected := s.selected, rotation := s.rotation) == s
    ensures e == MouseDown(1) && BottomPanel.ContainsPoint(x, y) ==> r == Ok(Select(s, x, y))
    ensures (|| e.Other?
             || (e.KeyDown? && e.key != 'r' && e.key != 'e')
             || (e.MouseDown? && e.button != 1 && e.button != 3)
             || (e == MouseDown(1) && !BottomPanel.ContainsPoint(x, y) && !GameArea.ContainsPoint(x, y))
             || (e == MouseDown(3) && !GameArea.ContainsPoint(x, y)))
      ==> r == Ok(s)
  {
    match e
    case Wheel(dy) =>
      if BottomPanel.ContainsPoint(x, y) then Ok(s.(scroll := Clamp(s.scroll + dy * ScrollStep, |catalog|))) else Ok(s)
    case KeyDown(k) =>
      if k == 'r' then Ok(s.(rotation := Toggle(s.rotation)))
      else if k == 'e' then Evaluated(sv, s)
      else Ok(s)
    case MouseDown(b) =>
      if b == 1 then
        if BottomPanel.ContainsPoint(x, y) then Ok(Select(s, x, y))
        else if GameArea.ContainsPoint(x, y) then
          Ok(s.(placed := Place(s.placed, catalog[s.selected], CursorCell(x, y), s.rotation)))
        else Ok(s)
      else if b == 3 then
        if GameArea.ContainsPoint(x, y) then Ok(s.(placed := RemoveAt(s.placed, CursorCell(x, y)))) else Ok(s)
      else Ok(s)
    case Other => Ok(s)
  }

  /** The events of one frame in order; the first failing evaluation ends the frame. */
  function Events(catalog: seq<Kind>, sv: Services, s: State, x: int, y: int, es: seq<Event>): (r: Result<State, ScoreError>)
    requires Indexed(catalog, s)
    ensures r.Ok? ==> Indexed(catalog, r.value)
    ensures Inv(catalog, s) && r.Ok? ==> Inv(catalog, r.value)
    ensures r.Ok? && GameArea.ContainsPoint(x, y) ==> r.value.selected == s.selected
    decreases |es|
  {
    if |es| == 0 then Ok(s)
    else
      match Step(catalog, sv, s, x, y, es[0])
      case Err(err) => Err(err)
      case Ok(t) =>
        RegionsDisjoint(x, y);
        Events(catalog, sv, t, x, y, es[1..])
  }

  /** One frame: the events, then the drawing pass, which lays the item list out again at the
      current scroll offset. A frame started in the invariant ends in it, so every list of
      placed items the session ever holds is valid. */
  function Frame(catalog: seq<Kind>, sv: Services, s: State, x: int, y: int, es: seq<Event>): (r: Result<State, ScoreError>)
    requires Indexed(catalog, s)
    ensures r.Ok? ==> Indexed(catalog, r.value)
    ensures Inv(catalog, s) && r.Ok? ==> Inv(catalog, r.value)
    ensures r.Ok? ==> r.value.buttons == Layout(|catalog|, r.value.scroll)
    ensures r.Ok? && GameArea.ContainsPoint(x, y) ==> r.value.selected == s.selected
  {
    match Events(catalog, sv, s, x, y, es)
    case Err(err) => Err(err)
    case Ok(t) => Ok(t.(buttons := Layout(|catalog|, t.scroll)))
  }

  /** Pressing R twice in a frame leaves the state as it was. */
  lemma RotateTwiceRestores(catalog: seq<Kind>, sv: Services, s: State, x: int, y: int)
    requires Indexed(catalog, s) && (s.rotation == 0 || s.rotation == 1)
    ensures Events(catalog, sv, s, x, y, [KeyDown('r'), KeyDown('r')]) == Ok(s)
  {
    var t := s.(rotation := Toggle(s.rotation));
    assert Step(catalog, sv, s, x, y, KeyDown('r')) == Ok(t);
    assert [KeyDown('r'), KeyDown('r')][1..] == [KeyDown('r')];
    assert Step(catalog, sv, t, x, y, KeyDown('r')) == Ok(s);
    assert [KeyDown('r')][1..] == [];
  }

  /** A left click that places an item followed by a right click on the same cell restores
      the session. */
  lemma PlaceThenRemoveRestores(catalog: seq<Kind>, sv: Services, s: State, x: int, y: int)
    requires Inv(catalog, s) && GameArea.ContainsPoint(x, y)
    requires !CheckCollision(catalog[s.selected], CursorCell(x, y), s.rotation, s.placed)
    ensures Events(catalog, sv, s, x, y, [MouseDown(1), MouseDown(3)]) == Ok(s)
  {
    var c := CursorCell(x, y);
    var t := s.(placed := Place(s.placed, catalog[s.selected], c, s.rotation));
    assert Step(catalog, sv, s, x, y, MouseDown(1)) == Ok(t);
    RemoveUndoesPlace(s.placed, catalog[s.selected], c, s.rotation);
    assert Step(catalog, sv, t, x, y, MouseDown(3)) == Ok(s);
    assert [MouseDown(1), MouseDown(3)][1..] == [MouseDown(3)];
    assert [MouseDown(3)][1..] == [];
  }

  // ---------------------------------------------------------------- the loop as written

  /** One event as the loop is written: left clicks in the room use the item and the
      placeability flag computed before the events were read. */
  function StepAsWritten(catalog: seq<Kind>, sv: Services, s: State, x: int, y: int,
                         item: Kind, placeable: bool, e: Event): (r: Result<State, ScoreError>)
    requires Indexed(catalog, s)
    ensures r.Ok? ==> Indexed(catalog, r.value)
    ensures e == MouseDown(1) && GameArea.ContainsPoint(x, y) ==>
      r == Ok(s.(placed := if placeable then s.placed + [Placement(item, CursorCell(x, y), s.rotation)] else s.placed))
    ensures !(e == MouseDown(1) && GameArea.ContainsPoint(x, y)) ==> r == Step(catalog, sv, s, x, y, e)
  {
    if e == MouseDown(1) && !BottomPanel.ContainsPoint(x, y) && GameArea.ContainsPoint(x, y) then
      Ok(s.(placed := if placeable then s.placed + [Placement(item, CursorCell(x, y), s.rotation)] else s.placed))
    else Step(catalog, sv, s, x, y, e)
  }

  function EventsAsWritten(catalog: seq<Kind>, sv: Services, s: State, x: int, y: int,
                           item: Kind, placeable: bool, es: seq<Event>): (r: Result<State, ScoreError>)
    requires Indexed(catalog, s)
    ensures r.Ok? ==> Indexed(catalog, r.value)
    decreases |es|
  {
    if |es| == 0 then Ok(s)
    else
      match StepAsWritten(catalog, sv, s, x, y, item, placeable, es[0])
      case Err(err) => Err(err)
      case Ok(t) => EventsAsWritten(catalog, sv, t, x, y, item, placeable, es[1..])
  }

  /** One frame as written: the current item and the placeability flag are fixed once from the
      state before the events, and are not refreshed by the events of the same frame. */
  function FrameAsWritten(catalog: seq<Kind>, sv: Services, s: State, x: int, y: int, es: seq<Event>): (r: Result<State, ScoreError>)
    requires Indexed(catalog, s)
    ensures r.Ok? ==> Indexed(catalog, r.value) && r.value.buttons == Layout(|catalog|, r.value.scroll)
  {
    var item := catalog[s.selected];
    var placeable := GameArea.ContainsPoint(x, y) && !CheckCollision(item, CursorCell(x, y), s.rotation, s.placed);
    match EventsAsWritten(catalog, sv, s, x, y, item, placeable, es)
    case Err(err) => Err(err)
    case Ok(t) => Ok(t.(buttons := Layout(|catalog|, t.scroll)))
  }

  /** Two left clicks in one frame on a free cell: the loop as written places the selected item
      twice on the same cell, a pair that overlaps; re-checking at each click places it once. */
  lemma DoubleClickPlacesTwice(catalog: seq<Kind>, sv: Services, s: State, x: int, y: int)
    requires Indexed(catalog, s) && GameArea.ContainsPoint(x, y)
    requires !CheckCollision(catalog[s.selected], CursorCell(x, y), s.rotation, s.placed)
    ensures FrameAsWritten(catalog, sv, s, x, y, [MouseDown(1), MouseDown(1)]).Ok?
    ensures FrameAsWritten(catalog, sv, s, x, y, [MouseDown(1), MouseDown(1)]).value.placed
      == s.placed + [Placement(catalog[s.selected], CursorCell(x, y), s.rotation),
                     Placement(catalog[s.selected], CursorCell(x, y), s.rotation)]
    ensures !Valid(FrameAsWritten(catalog, sv, s, x, y, [MouseDown(1), MouseDown(1)]).value.placed)
    ensures Frame(catalog, sv, s, x, y, [MouseDown(1), MouseDown(1)]).Ok?
    ensures Frame(catalog, sv, s, x, y, [MouseDown(1), MouseDown(1)]).value.placed
      == s.placed + [Placement(catalog[s.selected], CursorCell(x, y), s.rotation)]
  {
    var item := catalog[s.selected];
    var p := Placement(item, CursorCell(x, y), s.rotation);
    var es := [MouseDown(1), MouseDown(1)];
    RegionsDisjoint(x, y);
    var t1 := s.(placed := s.placed + [p]);
    var t2 := s.(placed := s.placed + [p] + [p]);
    assert StepAsWritten(catalog, sv, s, x, y, item, true, MouseDown(1)) == Ok(t1);
    assert StepAsWritten(catalog, sv, t1, x, y, item, true, MouseDown(1)) == Ok(t2);
    assert es[1..] == [MouseDown(1)] && [MouseDown(1)][1..] == [];
    assert EventsAsWritten(catalog, sv, s, x, y, item, true, es) == Ok(t2);
    assert s.placed + [p] + [p] == s.placed + [p, p];
    var n := |s.placed|;
    assert t2.placed[n] == p && t2.placed[n + 1] == p;
    assert FloorStrip(p).CollidesWith(FloorStrip(p));
    assert Step(catalog, sv, s, x, y, MouseDown(1)) == Ok(t1);
    assert t1.placed[n] == p;
    SameAnchorAlwaysCollides(item, CursorCell(x, y), s.rotation, t1.placed);
    assert Step(catalog, sv, t1, x, y, MouseDown(1)) == Ok(t1);
    assert Events(catalog, sv, s, x, y, es) == Ok(t1);
  }

  /** R and then a left click in one frame, where the item fits unrotated but not rotated: the
      loop as written places the rotated item anyway, leaving the list invalid; re-checking at
      the click leaves the list alone. */
  lemma RotateThenClickPlacesBlocked(catalog: seq<Kind>, sv: Services, s: State, x: int, y: int)
    requires Indexed(catalog, s) && Valid(s.placed) && GameArea.ContainsPoint(x, y)
    requires !CheckCollision(catalog[s.selected], CursorCell(x, y), s.rotation, s.placed)
    requires CheckCollision(catalog[s.selected], CursorCell(x, y), Toggle(s.rotation), s.placed)
    ensures FrameAsWritten(catalog, sv, s, x, y, [KeyDown('r'), MouseDown(1)]).Ok?
    ensures FrameAsWritten(catalog, sv, s, x, y, [KeyDown('r'), MouseDown(1)]).value.placed
      == s.placed + [Placement(catalog[s.selected], CursorCell(x, y), Toggle(s.rotation))]
    ensures !Valid(FrameAsWritten(catalog, sv, s, x, y, [KeyDown('r'), MouseDown(1)]).value.placed)
    ensures Frame(catalog, sv, s, x, y, [KeyDown('r'), MouseDown(1)]).Ok?
    ensures Frame(catalog, sv, s, x, y, [KeyDown('r'), MouseDown(1)]).value.placed == s.placed
  {
    var item := catalog[s.selected];
    var p := Placement(item, CursorCell(x, y), Toggle(s.rotation));
    var es := [KeyDown('r'), MouseDown(1)];
    RegionsDisjoint(x, y);
    var t1 := s.(rotation := Toggle(s.rotation));
    var t2 := t1.(placed := s.placed + [p]);
    assert StepAsWritten(catalog, sv, s, x, y, item, true, KeyDown('r')) == Ok(t1);
    assert StepAsWritten(catalog, sv, t1, x, y, item, true, MouseDown(1)) == Ok(t2);
    assert es[1..] == [MouseDown(1)] && [MouseDown(1)][1..] == [];
    assert EventsAsWritten(catalog, sv, s, x, y, item, true, es) == Ok(t2);
    PlaceableIffStaysValid(s.placed, p);
    assert Step(catalog, sv, s, x, y, KeyDown('r')) == Ok(t1);
    assert Step(catalog, sv, t1, x, y, MouseDown(1)) == Ok(t1);
    assert Events(catalog, sv, s, x, y, es) == Ok(t1);
  }

  /** Both situations arise from the start of a session with a one-item catalog: a 2x1 bed
      clicked twice at the top-left cell, and a 1x2 desk rotated and clicked at the last
      column, where it fits only unrotated. */
  lemma StaleFlagWitnesses()
    ensures !CheckCollision(Kind("bed", 2, 1), CursorCell(10, 10), 0, [])
    ensures !CheckCollision(Kind("desk", 1, 2), CursorCell(9 * GridSize, 10), 0, [])
    ensures CheckCollision(Kind("desk", 1, 2), CursorCell(9 * GridSize, 10), Toggle(0), [])
    ensures GameArea.ContainsPoint(10, 10) && GameArea.ContainsPoint(9 * GridSize, 10)
  {
    assert CursorCell(10, 10) == Cell(0, 0);
    assert CursorCell(9 * GridSize, 10) == Cell(9, 0);
    BoundaryTest(Kind("bed", 2, 1), Cell(0, 0), 0);
    BoundaryTest(Kind("desk", 1, 2), Cell(9, 0), 0);
    BoundaryTest(Kind("desk", 1, 2), Cell(9, 0), 1);
  }

  // ---------------------------------------------------------------- drawing order

  function Sprites(ps: seq<Placement>): (r: seq<Sprite>)
    ensures |r| == |ps|
    ensures forall i :: 0 <= i < |ps| ==> r[i] == Sprite(ps[i], false)
  {
    if |ps| == 0 then [] else [Sprite(ps[0], false)] + Sprites(ps[1..])
  }

  /** The cursor preview, drawn only while the mouse is over the room. */
  function Ghost(item: Kind, s: State, x: int, y: int): (g: seq<Sprite>)
    ensures |g| <= 1
    ensures |g| == 1 <==> GameArea.ContainsPoint(x, y)
    ensures forall i :: 0 <= i < |g| ==> g[i] == Sprite(Placement(item, CursorCell(x, y), s.rotation), true)
  {
    if GameArea.ContainsPoint(x, y) then [Sprite(Placement(item, CursorCell(x, y), s.rotation), true)] else []
  }

  /** The render list: the placed items and the preview, sorted by (row, column) with ties in
      list order, so it is a permutation of them holding every placed item exactly once. */
  function RenderList(catalog: seq<Kind>, s: State, x: int, y: int): (r: seq<Sprite>)
    requires s.selected < |catalog|
    ensures Sorted(r)
    ensures multiset(r) == multiset(Sprites(s.placed) + Ghost(catalog[s.selected], s, x, y))
    ensures |r| == |s.placed| + (if GameArea.ContainsPoint(x, y) then 1 else 0)
    ensures forall k :: WithKey(r, k) == WithKey(Sprites(s.placed) + Ghost(catalog[s.selected], s, x, y), k)
  {
    var r := Sort(Sprites(s.placed) + Ghost(catalog[s.selected], s, x, y));
    assert |r| == |multiset(r)|;
    r
  }

  /** While the mouse is over the room, no event of the frame changes the selection, so the
      preview drawn after the events shows the item that was selected before them, as the loop
      draws it. */
  lemma PreviewUsesFrameItem(catalog: seq<Kind>, sv: Services, s: State, x: int, y: int, es: seq<Event>)
    requires Indexed(catalog, s) && GameArea.ContainsPoint(x, y)
    requires Frame(catalog, sv, s, x, y, es).Ok?
    ensures RenderList(catalog, Frame(catalog, sv, s, x, y, es).value, x, y)
      == Sort(Sprites(Frame(catalog, sv, s, x, y, es).value.placed)
              + [Sprite(Placement(catalog[s.selected], CursorCell(x, y), Frame(catalog, sv, s, x, y, es).value.rotation), true)])
  {
  }
}
