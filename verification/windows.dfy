/**
 * A debug window: its rectangle, open flag, and the pointer state it keeps between GUI
 * events (the resize corner, touch scrolling and the scroll offset waiting for the next
 * frame). Sizes are the menu's configuration, passed in as `MinSize`.
 */
module Windows {
  import opened Geometry

  /** Side of the close and resize buttons inside a window. */
  const WindowButtonSize: real := 24.0
  /** Gap kept between an opened window and the screen's left, right and bottom edges. */
  const WindowSizeMargin: real := 5.0
  /** Height of the menu's own buttons; windows stay two of them below the screen top. */
  const MenuButtonSize: real := 24.0

  datatype MinSize = MinSize(width: real, height: real)

  datatype Window = Window(
    id: int,
    title: string,
    isOpen: bool,
    rect: Rect,
    before: Vec2,        // pointer position at the last handled event
    touchScale: bool,    // the pointer went down on the resize corner
    scrollBar: bool,     // the content is drawn in a scroll view
    scrollPos: Vec2,
    touchScroll: bool,   // the pointer went down on the scroll area
    pending: Vec2)       // touch scrolling not yet applied to scrollPos

  /** A new window is closed, at rest and scrolled to the origin. */
  function NewWindow(id: int, title: string, rect: Rect, scrollBar: bool): (w: Window)
    ensures w.id == id && w.title == title && w.rect == rect && w.scrollBar == scrollBar
    ensures !w.isOpen && !w.touchScale && !w.touchScroll
    ensures w.scrollPos == Zero && w.pending == Zero && w.before == Zero
  {
    Window(id, title, false, rect, Zero, false, scrollBar, Zero, false, Zero)
  }

  /** The screen area an opened window is clamped into. */
  predicate Inset(r: Rect, screen: Rect) {
    && r.XMin() >= screen.XMin() + WindowSizeMargin
    && r.XMax() <= screen.XMax() - WindowSizeMargin
    && r.YMin() >= screen.YMin() + 2.0 * MenuButtonSize
    && r.YMax() <= screen.YMax() - WindowSizeMargin
  }

  /** The default window rectangle: the screen shrunk to the inset on every side. */
  function DefaultRect(screen: Rect): (r: Rect)
    ensures r.XMin() == screen.XMin() + WindowSizeMargin
    ensures r.XMax() == screen.XMax() - WindowSizeMargin
    ensures r.YMin() == screen.YMin() + 2.0 * MenuButtonSize
    ensures r.YMax() == screen.YMax() - WindowSizeMargin
  {
    var m := screen.WithXMin(screen.XMin() + WindowSizeMargin).WithYMin(screen.YMin() + 2.0 * MenuButtonSize);
    m.WithXMax(m.XMax() - WindowSizeMargin).WithYMax(m.YMax() - WindowSizeMargin)
  }

  /** A rectangle at `d`'s position whose size is `d`'s size scaled per axis (the scaled AddWindow). */
  function Scaled(d: Rect, scale: Vec2): (r: Rect)
    ensures r.XMin() == d.XMin() && r.YMin() == d.YMin()
    ensures r.width == d.width * scale.x && r.height == d.height * scale.y
  {
    Rect(d.XMin(), d.YMin(), d.width * scale.x, d.height * scale.y)
  }

  /**
   * Opens the window and pulls each edge that lies outside the inset back onto it; an
   * edge inside the inset stays, so the window shrinks rather than moves.
   */
  function Open(w: Window, screen: Rect): (r: Window)
    ensures r.isOpen && r == w.(isOpen := true, rect := r.rect)
    ensures r.rect.XMin() == Max(w.rect.XMin(), screen.XMin() + WindowSizeMargin)
    ensures r.rect.XMax() == Min(w.rect.XMax(), screen.XMax() - WindowSizeMargin)
    ensures r.rect.YMin() == Max(w.rect.YMin(), screen.YMin() + 2.0 * MenuButtonSize)
    ensures r.rect.YMax() == Min(w.rect.YMax(), screen.YMax() - WindowSizeMargin)
  {
    var a := w.rect.WithXMin(Max(w.rect.XMin(), screen.XMin() + WindowSizeMargin));
    var b := a.WithXMax(Min(w.rect.XMax(), screen.XMax() - WindowSizeMargin));
    var c := b.WithYMin(Max(w.rect.YMin(), screen.YMin() + 2.0 * MenuButtonSize));
    var d := c.WithYMax(Min(w.rect.YMax(), screen.YMax() - WindowSizeMargin));
    w.(isOpen := true, rect := d)
  }

  /** Every edge of an opened window lies inside the inset, and no edge moves outward. */
  lemma OpenFitsAndNeverGrows(w: Window, screen: Rect)
    ensures Inset(Open(w, screen).rect, screen)
    ensures Open(w, screen).rect.XMin() >= w.rect.XMin() && Open(w, screen).rect.XMax() <= w.rect.XMax()
    ensures Open(w, screen).rect.YMin() >= w.rect.YMin() && Open(w, screen).rect.YMax() <= w.rect.YMax()
    ensures Open(w, screen).rect.width <= w.rect.width && Open(w, screen).rect.height <= w.rect.height
  {
  }

  /** A window already inside the inset opens exactly where it is. */
  lemma OpenKeepsFitting(w: Window, screen: Rect)
    requires Inset(w.rect, screen)
    ensures Open(w, screen).rect == w.rect
  {
    EdgesDetermine(Open(w, screen).rect, w.rect);
  }

  /** Opening twice is opening once. */
  lemma OpenIdempotent(w: Window, screen: Rect)
    ensures Open(Open(w, screen), screen) == Open(w, screen)
  {
    OpenFitsAndNeverGrows(w, screen);
    OpenKeepsFitting(Open(w, screen), screen);
  }

  /** A window whose left edge is inside the inset but whose right edge is not keeps its left edge and loses width. */
  lemma OpenShrinksNotShifts(w: Window, screen: Rect)
    requires w.rect.XMin() >= screen.XMin() + WindowSizeMargin
    requires w.rect.XMax() > screen.XMax() - WindowSizeMargin
    ensures Open(w, screen).rect.XMin() == w.rect.XMin()
    ensures Open(w, screen).rect.width < w.rect.width
  {
  }

  /** The default rectangle, and any scaling of it by factors in [0, 1] of a non-negative size, opens unchanged. */
  lemma DefaultRectsOpenInPlace(screen: Rect, scale: Vec2, w: Window)
    requires DefaultRect(screen).width >= 0.0 && DefaultRect(screen).height >= 0.0
    requires 0.0 <= scale.x <= 1.0 && 0.0 <= scale.y <= 1.0
    requires w.rect == DefaultRect(screen) || w.rect == Scaled(DefaultRect(screen), scale)
    ensures Open(w, screen).rect == w.rect
  {
    var d := DefaultRect(screen);
    assert Inset(d, screen);
    if w.rect != d {
      ScaledStaysInside(d, screen, scale);
    }
    OpenKeepsFitting(w, screen);
  }

  /** Shrinking a rectangle inside the inset towards its top-left corner keeps it inside. */
  lemma ScaledStaysInside(d: Rect, screen: Rect, scale: Vec2)
    requires Inset(d, screen) && d.width >= 0.0 && d.height >= 0.0
    requires 0.0 <= scale.x <= 1.0 && 0.0 <= scale.y <= 1.0
    ensures Inset(Scaled(d, scale), screen)
  {
    MulAtMostOne(d.width, scale.x);
    MulAtMostOne(d.height, scale.y);
  }

  lemma MulAtMostOne(a: real, s: real)
    requires a >= 0.0 && 0.0 <= s <= 1.0
    ensures 0.0 <= a * s <= a
  {
    assert a - a * s == a * (1.0 - s);
  }

  /** Closing clears the open flag, the resize grip and the scroll offset; touch scrolling not yet applied survives. */
  function Close(w: Window): (r: Window)
    ensures !r.isOpen && !r.touchScale && r.scrollPos == Zero
    ensures r.pending == w.pending && r.touchScroll == w.touchScroll && r.rect == w.rect
  {
    w.(isOpen := false, touchScale := false, scrollPos := Zero)
  }

  /** Per frame: an open window moves its scroll offset by the pending touch scroll. */
  function UpdateWindow(w: Window): (r: Window)
    ensures !w.isOpen ==> r == w
    ensures w.isOpen ==> r == w.(scrollPos := w.scrollPos.Plus(w.pending), pending := Zero)
  {
    if w.isOpen then w.(scrollPos := w.scrollPos.Plus(w.pending), pending := Zero) else w
  }

  /** A second update in the same frame changes nothing. */
  lemma UpdateWindowIdempotent(w: Window)
    ensures UpdateWindow(UpdateWindow(w)) == UpdateWindow(w)
  {
  }

  /** Scrolling left pending when a window was closed is applied after it is reopened. */
  lemma StaleScrollAfterReopen(w: Window, screen: Rect)
    ensures UpdateWindow(Open(Close(w), screen)).scrollPos == w.pending
  {
  }

  /**
   * Resizes by the pointer's movement since the last event, never below the minimum;
   * the position stays.
   */
  function Resize(w: Window, mouse: Vec2, mins: MinSize): (r: Window)
    ensures r == w.(rect := r.rect)
    ensures r.rect.x == w.rect.x && r.rect.y == w.rect.y
    ensures r.rect.width >= mins.width && r.rect.height >= mins.height
    ensures r.rect.width >= w.rect.width + (mouse.x - w.before.x)
    ensures r.rect.height >= w.rect.height + (mouse.y - w.before.y)
  {
    var dx := mouse.x - w.before.x;
    var dy := mouse.y - w.before.y;
    w.(rect := Rect(w.rect.x, w.rect.y, Max(w.rect.width + dx, mins.width), Max(w.rect.height + dy, mins.height)))
  }

  /** Above the minimum size the lower right corner follows the pointer exactly. */
  lemma ResizeFollowsPointer(w: Window, mouse: Vec2, mins: MinSize)
    requires w.rect.width + (mouse.x - w.before.x) >= mins.width
    requires w.rect.height + (mouse.y - w.before.y) >= mins.height
    ensures Resize(w, mouse, mins).rect.XMax() == w.rect.XMax() + (mouse.x - w.before.x)
    ensures Resize(w, mouse, mins).rect.YMax() == w.rect.YMax() + (mouse.y - w.before.y)
  {
  }

  datatype EventKind = MouseDown | MouseUp | MouseDrag | OtherEvent

  /** One GUI event inside a window: whether the close button fired, the scroll view's reported position, the event and the pointer in window coordinates. */
  datatype GuiEvent = GuiEvent(closePressed: bool, scrolled: Vec2, kind: EventKind, mouse: Vec2)

  datatype Outcome = Outcome(window: Window, dragged: bool, used: bool)

  /** The resize grip: a rect whose corner is 24 units in from the window's lower right. */
  function ResizeArea(r: Rect): (a: Rect)
    ensures a.XMin() == r.width - WindowButtonSize && a.YMin() == r.height - WindowButtonSize
  {
    Rect(r.width - WindowButtonSize, r.height - WindowButtonSize, r.width, r.height)
  }

  /** The scroll area as built: positioned at the window's min corner and sized by its max corner. */
  function ScrollArea(r: Rect): (a: Rect)
    ensures a.XMin() == r.XMin() && a.YMin() == r.YMin() && a.width == r.XMax() && a.height == r.YMax()
  {
    Rect(r.XMin(), r.YMin(), r.XMax(), r.YMax())
  }

  /** The pointer flags after a press (grip, else scroll area) or a release (both cleared). */
  function Press(w: Window, kind: EventKind, mouse: Vec2): (r: Window)
    ensures kind == MouseDown ==> r.touchScale == ResizeArea(w.rect).Contains(mouse) && r.before == mouse
    ensures kind == MouseDown && !r.touchScale ==> r.touchScroll == ScrollArea(w.rect).Contains(mouse)
    ensures kind == MouseDown && r.touchScale ==> r.touchScroll == w.touchScroll
    ensures kind == MouseUp ==> r == w.(touchScale := false, touchScroll := false)
    ensures kind != MouseDown && kind != MouseUp ==> r == w
    ensures r.rect == w.rect && r.isOpen == w.isOpen && r.pending == w.pending
  {
    match kind
    case MouseDown =>
      var scale := ResizeArea(w.rect).Contains(mouse);
      var scroll := if scale then w.touchScroll else ScrollArea(w.rect).Contains(mouse);
      w.(touchScale := scale, touchScroll := scroll, before := mouse)
    case MouseUp => w.(touchScale := false, touchScroll := false)
    case _ => w
  }

  /**
   * Handles one GUI event: the close button, the scroll view, then the pointer, which
   * resizes from the grip, scrolls from the scroll area, or otherwise drags the window.
   * Presses and drags are consumed.
   */
  function OnWindow(w: Window, e: GuiEvent, mins: MinSize): (o: Outcome)
    ensures o.used <==> e.kind == MouseDown || e.kind == MouseDrag
    ensures o.dragged <==> !o.window.touchScale && !o.window.touchScroll
    ensures o.window.isOpen <==> w.isOpen && !e.closePressed
    ensures o.window.id == w.id && o.window.title == w.title && o.window.scrollBar == w.scrollBar
    ensures e.kind == MouseUp ==> o.dragged
    ensures e.kind == MouseDown ==> o.window.touchScale == ResizeArea(w.rect).Contains(e.mouse)
    ensures !o.dragged ==> o.window.before == e.mouse
    ensures !o.window.touchScale ==> o.window.rect == w.rect
    ensures o.window.touchScale ==> o.window.rect.width >= mins.width && o.window.rect.height >= mins.height
    ensures e.kind == MouseDown && o.window.touchScale ==>
      o.window.rect == Rect(w.rect.x, w.rect.y, Max(w.rect.width, mins.width), Max(w.rect.height, mins.height))
    ensures !o.window.touchScroll || o.window.touchScale ==> o.window.pending == w.pending
  {
    var w1 := if e.closePressed then Close(w) else w;
    var w2 := if w1.scrollBar then w1.(scrollPos := e.scrolled) else w1;
    var w3 := Press(w2, e.kind, e.mouse);
    var used := e.kind == MouseDown || e.kind == MouseDrag;
    if w3.touchScale then
      Outcome(Resize(w3, e.mouse, mins).(before := e.mouse), false, used)
    else if w3.touchScroll then
      var dy := e.mouse.y - w3.before.y;
      Outcome(w3.(pending := w3.pending.Plus(Vec2(0.0, -dy)), before := e.mouse), false, used)
    else
      Outcome(w3, true, used)
  }

  /** The window after a run of events, each handled by OnWindow. */
  function Replay(w: Window, es: seq<GuiEvent>, mins: MinSize): (r: Window)
    ensures r.id == w.id && r.title == w.title
    decreases |es|
  {
    if es == [] then w else Replay(OnWindow(w, es[0], mins).window, es[1..], mins)
  }

  predicate PlainDrag(e: GuiEvent) { e.kind == MouseDrag && !e.closePressed }

  /**
   * While a touch scroll is held, a run of drags adds up to the total vertical travel
   * from the press: the pending scroll moves by the start height minus the end height.
   */
  lemma {:induction false} DragScrollTelescopes(w: Window, es: seq<GuiEvent>, mins: MinSize)
    requires w.touchScroll && !w.touchScale
    requires |es| > 0 && forall i | 0 <= i < |es| :: PlainDrag(es[i])
    ensures Replay(w, es, mins).pending == Vec2(w.pending.x, w.pending.y + (w.before.y - es[|es| - 1].mouse.y))
    ensures Replay(w, es, mins).before == es[|es| - 1].mouse
    ensures Replay(w, es, mins).touchScroll && !Replay(w, es, mins).touchScale
    decreases |es|
  {
    assert PlainDrag(es[0]);
    var w1 := OnWindow(w, es[0], mins).window;
    if |es| > 1 {
      assert forall i | 0 <= i < |es[1..]| :: PlainDrag(es[1..][i]) by {
        forall i | 0 <= i < |es[1..]| ensures PlainDrag(es[1..][i]) { assert PlainDrag(es[i + 1]); }
      }
      DragScrollTelescopes(w1, es[1..], mins);
      assert es[1..][|es[1..]| - 1] == es[|es| - 1];
    }
  }
}
