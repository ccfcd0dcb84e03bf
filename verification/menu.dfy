/**
 * The menu controller (DebugMenu): the item tree, the open item whose children are on
 * show (called the cursor here), the registered windows, visibility, the view mode and
 * the background-touch switch. Item callbacks are recorded in a trace in the order they
 * are invoked; the callbacks AddWindow registers also open and close their window.
 */
module Controller {
  import opened Common
  import opened Geometry
  import opened Items
  import Paths
  import Registration
  import Removal
  import Windows
  import Gestures

  datatype Mode = All | ContentsOnly

  /**
   * The menu's observable history, in order: the calls it makes into code outside it
   * (Ran, BackgroundChanged), and CallbackSet, a marker that calls nothing and only
   * records where a background callback was installed, so LastSent starts afresh there.
   */
  datatype Effect =
    | Ran(handler: Handler)             // an item callback was invoked
    | BackgroundChanged(enabled: bool)  // the background-touch callback was invoked
    | CallbackSet(present: bool)        // a background-touch callback was installed or cleared

  datatype Menu = Menu(
    tree: Tree,
    cursor: NodeId,                 // the open item
    windows: seq<Windows.Window>,
    visible: bool,
    mode: Mode,
    backgroundActive: bool,
    hasCallback: bool,              // a background-touch callback is installed
    screen: Rect,
    nextWindowId: nat,
    defaultRect: Option<Rect>,      // the default window rectangle, once computed
    config: Gestures.Config,
    detector: Gestures.Detector,
    trace: seq<Effect>)

  /** The effects of invoking each handler once, in order. */
  function Invoked(hs: seq<Handler>): (es: seq<Effect>)
    ensures |es| == |hs| && forall i | 0 <= i < |hs| :: es[i] == Ran(hs[i])
  {
    if hs == [] then [] else [Ran(hs[0])] + Invoked(hs[1..])
  }

  /** Window.Open (with `open`) or Window.Close on every window with the given id; the others stay. */
  function ForWindow(ws: seq<Windows.Window>, id: nat, open: bool, screen: Rect): (r: seq<Windows.Window>)
    ensures |r| == |ws|
    ensures forall i | 0 <= i < |ws| ::
      r[i] == if ws[i].id != id then ws[i] else if open then Windows.Open(ws[i], screen) else Windows.Close(ws[i])
  {
    if ws == [] then []
    else
      var w := if ws[0].id != id then ws[0] else if open then Windows.Open(ws[0], screen) else Windows.Close(ws[0]);
      [w] + ForWindow(ws[1..], id, open, screen)
  }

  /** One item callback's effect on the windows: a window callback acts on its window, any other on none. */
  function Handle(ws: seq<Windows.Window>, screen: Rect, h: Handler): (r: seq<Windows.Window>)
    ensures |r| == |ws|
    ensures forall i | 0 <= i < |ws| :: r[i].id == ws[i].id && r[i].title == ws[i].title
    ensures h.Custom? ==> r == ws
  {
    match h
    case Custom(_) => ws
    case OpenWindow(id) => ForWindow(ws, id, true, screen)
    case CloseWindow(id) => ForWindow(ws, id, false, screen)
  }

  /** The callbacks of one event (OnExecute or OnDispose) applied to the windows once each, in subscription order. */
  function HandleAll(ws: seq<Windows.Window>, screen: Rect, hs: seq<Handler>): (r: seq<Windows.Window>)
    ensures |r| == |ws|
    ensures forall i | 0 <= i < |ws| :: r[i].id == ws[i].id && r[i].title == ws[i].title
    decreases |hs|
  {
    if hs == [] then ws else HandleAll(Handle(ws, screen, hs[0]), screen, hs[1..])
  }

  /** Invokes the callbacks of one event: the windows they address change and the trace records them. */
  function RunAll(m: Menu, hs: seq<Handler>): Menu
  {
    m.(windows := HandleAll(m.windows, m.screen, hs), trace := m.trace + Invoked(hs))
  }

  lemma {:induction false} InvokedAppend(a: seq<Handler>, b: seq<Handler>)
    ensures Invoked(a + b) == Invoked(a) + Invoked(b)
  {
    var l := Invoked(a + b);
    var r := Invoked(a) + Invoked(b);
    assert |l| == |r|;
    forall i | 0 <= i < |l| ensures l[i] == r[i] {
      if i < |a| {
        assert (a + b)[i] == a[i];
      } else {
        assert (a + b)[i] == b[i - |a|];
      }
    }
  }

  /** Applying two lists of callbacks one after the other is applying them joined. */
  lemma {:induction false} HandleAllAppend(ws: seq<Windows.Window>, screen: Rect, a: seq<Handler>, b: seq<Handler>)
    ensures HandleAll(ws, screen, a + b) == HandleAll(HandleAll(ws, screen, a), screen, b)
    decreases |a|
  {
    if a == [] {
      assert a + b == b;
    } else {
      assert (a + b)[1..] == a[1..] + b;
      assert (a + b)[0] == a[0];
      HandleAllAppend(Handle(ws, screen, a[0]), screen, a[1..], b);
    }
  }

  /** Recording two lists of callbacks one after the other is recording them joined. */
  lemma TraceAppend(trace: seq<Effect>, a: seq<Handler>, b: seq<Handler>)
    ensures trace + Invoked(a + b) == (trace + Invoked(a)) + Invoked(b)
  {
    InvokedAppend(a, b);
  }

  /** Running two lists of callbacks one after the other is running them joined. */
  lemma RunAllAppend(m: Menu, a: seq<Handler>, b: seq<Handler>)
    ensures RunAll(m, a + b) == RunAll(RunAll(m, a), b)
  {
    HandleAllAppend(m.windows, m.screen, a, b);
    TraceAppend(m.trace, a, b);
  }

  /** Callbacks that are not window callbacks leave the windows alone. */
  lemma {:induction false} CustomHandlersKeepWindows(ws: seq<Windows.Window>, screen: Rect, hs: seq<Handler>)
    requires forall i | 0 <= i < |hs| :: hs[i].Custom?
    ensures HandleAll(ws, screen, hs) == ws
    decreases |hs|
  {
    if hs != [] {
      assert forall i | 0 <= i < |hs[1..]| :: hs[1..][i].Custom? by {
        forall i | 0 <= i < |hs[1..]| ensures hs[1..][i].Custom? { assert hs[1..][i] == hs[i + 1]; }
      }
      CustomHandlersKeepWindows(ws, screen, hs[1..]);
    }
  }

  /** An opened window is open and fits the screen inset; every other window is untouched. */
  lemma OpenWindowHandler(m: Menu, id: nat, k: nat)
    requires k < |m.windows|
    ensures var r := RunAll(m, [OpenWindow(id)]);
      && (m.windows[k].id == id ==> r.windows[k].isOpen && Windows.Inset(r.windows[k].rect, m.screen))
      && (m.windows[k].id != id ==> r.windows[k] == m.windows[k])
  {
    Windows.OpenFitsAndNeverGrows(m.windows[k], m.screen);
    var hs := [OpenWindow(id)];
    assert hs[0] == OpenWindow(id) && hs[1..] == [];
    assert HandleAll(m.windows, m.screen, hs) == HandleAll(Handle(m.windows, m.screen, hs[0]), m.screen, []);
  }

  // ----- visibility, view mode and the background-touch callback -----

  /** DebugMenu.SetMenuVisible: the callback hears whether touches reach the scene, unless the user pinned them on. */
  function SetMenuVisible(m: Menu, v: bool): (r: Menu)
    ensures r.visible == v
    ensures !m.backgroundActive && m.hasCallback ==> r == m.(visible := v, trace := m.trace + [BackgroundChanged(!v)])
    ensures m.backgroundActive || !m.hasCallback ==> r == m.(visible := v)
  {
    var r := m.(visible := v);
    if !m.backgroundActive && m.hasCallback then r.(trace := m.trace + [BackgroundChanged(!v)]) else r
  }

  /** DebugMenu.SetActiveBackground: the switch is set and the callback always hears it. */
  function SetActiveBackground(m: Menu, enable: bool): (r: Menu)
    ensures r.backgroundActive == enable
    ensures m.hasCallback ==> r == m.(backgroundActive := enable, trace := m.trace + [BackgroundChanged(enable)])
    ensures !m.hasCallback ==> r == m.(backgroundActive := enable)
  {
    var r := m.(backgroundActive := enable);
    if m.hasCallback then r.(trace := m.trace + [BackgroundChanged(enable)]) else r
  }

  /**
   * DebugMenu.SetChangeActiveBackgroundFunction: installs (or clears) the callback without
   * calling it. The CallbackSet entry is a marker in the history, not a call.
   */
  function SetCallback(m: Menu, present: bool): (r: Menu)
    ensures r == m.(hasCallback := present, trace := m.trace + [CallbackSet(present)])
  {
    m.(hasCallback := present, trace := m.trace + [CallbackSet(present)])
  }

  /** The value the installed background callback was last given, if any since it was installed. */
  function LastSent(trace: seq<Effect>): (r: Option<bool>)
    ensures r.Some? ==> exists k | 0 <= k < |trace| :: trace[k] == BackgroundChanged(r.value)
  {
    if trace == [] then None
    else
      match trace[|trace| - 1]
      case BackgroundChanged(b) => Some(b)
      case CallbackSet(_) => None
      case Ran(_) => LastSent(trace[..|trace| - 1])
  }

  /**
   * The background callback's view agrees with the menu: the last value it was given
   * says whether touches reach the scene, which they do when the user pinned them on or
   * when the menu is hidden.
   */
  predicate Agrees(m: Menu) {
    m.hasCallback && LastSent(m.trace).Some? ==> LastSent(m.trace).value == (m.backgroundActive || !m.visible)
  }

  /** Item callbacks never speak to the background callback. */
  lemma {:induction false} LastSentIgnoresRuns(trace: seq<Effect>, hs: seq<Handler>)
    ensures LastSent(trace + Invoked(hs)) == LastSent(trace)
    decreases |hs|
  {
    if hs == [] {
      assert trace + Invoked(hs) == trace;
    } else {
      var pre := hs[..|hs| - 1];
      assert hs == pre + [hs[|hs| - 1]];
      InvokedAppend(pre, [hs[|hs| - 1]]);
      assert Invoked([hs[|hs| - 1]]) == [Ran(hs[|hs| - 1])];
      var all := trace + Invoked(hs);
      assert all == (trace + Invoked(pre)) + [Ran(hs[|hs| - 1])];
      assert all[..|all| - 1] == trace + Invoked(pre);
      assert all[|all| - 1] == Ran(hs[|hs| - 1]);
      LastSentIgnoresRuns(trace, pre);
    }
  }

  /** The mode button: All and ContentsOnly swap. */
  function ToggleMode(m: Menu): (r: Menu)
    ensures r.mode != m.mode && r == m.(mode := r.mode)
  {
    m.(mode := if m.mode == All then ContentsOnly else All)
  }

  /** Pressing the mode button twice changes nothing. */
  lemma ToggleModeTwice(m: Menu)
    ensures ToggleMode(ToggleMode(m)) == m
  {
  }

  /** DebugMenu.Reset, with the screen rectangle CalcScreenRect computes: hidden, everything shown, the root open. */
  function Reset(m: Menu, screen: Rect): (r: Menu)
    ensures !r.visible && r.mode == All && r.cursor == Root && r.screen == screen
    ensures r.tree == m.tree && r.windows == m.windows && r.backgroundActive == m.backgroundActive
    ensures r.defaultRect == m.defaultRect && r.nextWindowId == m.nextWindowId
  {
    SetMenuVisible(m.(screen := screen), false).(mode := All, cursor := Root)
  }

  // ----- items -----

  /** DebugMenu.OpenItem: a branch becomes the open item; a leaf is ignored. */
  function Focus(m: Menu, id: NodeId): (r: Menu)
    requires id in m.tree.items
    ensures IsLeaf(m.tree, id) ==> r == m
    ensures !IsLeaf(m.tree, id) ==> r == m.(cursor := id)
  {
    if IsLeaf(m.tree, id) then m else m.(cursor := id)
  }

  /** Item.Open: a leaf runs its execute callbacks once each, in order; a branch becomes the open item. */
  function OpenItem(m: Menu, id: NodeId): (r: Menu)
    requires id in m.tree.items
    ensures IsLeaf(m.tree, id) ==> r == RunAll(m, m.tree.items[id].onExecute)
    ensures !IsLeaf(m.tree, id) ==> r == m.(cursor := id)
  {
    if IsLeaf(m.tree, id) then RunAll(m, m.tree.items[id].onExecute) else Focus(m, id)
  }

  /** Item.Back on the open item: DebugMenu.CloseItem sends the cursor to the root, then the parent is opened. */
  function Back(m: Menu): (r: Menu)
    requires WellFormed(m.tree) && m.cursor in m.tree.items
    ensures m.tree.items[m.cursor].parent.None? ==> r == m.(cursor := Root)
    ensures m.tree.items[m.cursor].parent.Some? ==>
      m.tree.items[m.cursor].parent.value in m.tree.items
      && r == OpenItem(m.(cursor := Root), m.tree.items[m.cursor].parent.value)
  {
    var closed := m.(cursor := Root);
    match m.tree.items[m.cursor].parent
    case None => closed
    case Some(p) =>
      assert m.cursor != Root && ParentOk(m.tree, m.cursor);
      OpenItem(closed, p)
  }

  /** Back on the root leaves everything as it is. */
  lemma BackAtRoot(m: Menu)
    requires WellFormed(m.tree) && m.cursor == Root
    ensures Back(m) == m
  {
  }

  /** Opening a branch among the open item's children and pressing Back returns to where the menu was. */
  lemma OpenThenBack(m: Menu, i: nat)
    requires WellFormed(m.tree) && m.cursor in m.tree.items
    requires i < |m.tree.items[m.cursor].children|
    requires m.tree.items[m.cursor].children[i] in m.tree.items
    requires !IsLeaf(m.tree, m.tree.items[m.cursor].children[i])
    ensures Back(OpenItem(m, m.tree.items[m.cursor].children[i])) == m
  {
    var c := m.tree.items[m.cursor].children[i];
    assert ChildrenOk(m.tree, m.cursor);
    assert !IsLeaf(m.tree, m.cursor);
  }

  /**
   * DebugMenu.SelectItem (OpenItemInternal): a path that does not resolve does nothing;
   * a branch becomes the open item; a leaf runs its execute callbacks and the open item stays.
   */
  function SelectItem(m: Menu, path: string): (r: Menu)
    requires WellFormed(m.tree)
    ensures var f := Find(m.tree, Paths.Split(path));
      && (!f.found ==> r == m)
      && (f.found && IsLeaf(m.tree, f.last) ==> r == RunAll(m, m.tree.items[f.last].onExecute))
      && (f.found && !IsLeaf(m.tree, f.last) ==> r == m.(cursor := f.last))
  {
    var f := Find(m.tree, Paths.Split(path));
    if f.found then OpenItem(Focus(m, f.last), f.last) else m
  }

  /** After selecting a branch, the header shows "/" followed by the selected path. */
  lemma SelectedBranchShowsPath(m: Menu, path: string)
    requires WellFormed(m.tree)
    requires Find(m.tree, Paths.Split(path)).found && !IsLeaf(m.tree, Find(m.tree, Paths.Split(path)).last)
    ensures FullPath(SelectItem(m, path).tree, SelectItem(m, path).cursor) == "/" + path
  {
    FullPathOfFound(m.tree, path);
  }

  /** A button for each child of the open item, drawn only while the menu is shown in full. */
  function PressChild(m: Menu, i: int): (r: Menu)
    requires WellFormed(m.tree) && m.cursor in m.tree.items
    ensures var cs := m.tree.items[m.cursor].children;
      && (m.visible && m.mode == All && 0 <= i < |cs| ==> cs[i] in m.tree.items && r == OpenItem(m, cs[i]))
      && (!(m.visible && m.mode == All && 0 <= i < |cs|) ==> r == m)
  {
    var cs := m.tree.items[m.cursor].children;
    if m.visible && m.mode == All && 0 <= i < |cs| then
      assert ChildrenOk(m.tree, m.cursor);
      OpenItem(m, cs[i])
    else m
  }

  /** DebugMenu.AddItem (PrivateAddItem) on the menu's tree. */
  function AddItem(m: Menu, path: string, onExecute: Option<Handler>, onDispose: Option<Handler>): (r: Menu)
    requires WellFormed(m.tree)
    ensures r == m.(tree := r.tree) && WellFormed(r.tree)
  {
    m.(tree := Registration.AddItem(m.tree, path, onExecute, onDispose))
  }

  /** DebugMenu.CloseItem for each removed item in turn: the open item goes back to the root if it was removed. */
  function CloseAll(cursor: NodeId, removed: seq<NodeId>): (r: NodeId)
    ensures r == if cursor in removed then Root else cursor
  {
    if removed == [] then cursor
    else CloseAll(if removed[0] == cursor then Root else cursor, removed[1..])
  }

  /** The dispose callbacks of the removed items, item by item in removal order. */
  function Disposers(t: Tree, removed: seq<NodeId>): seq<Handler>
    requires forall k | 0 <= k < |removed| :: removed[k] in t.items
  {
    if removed == [] then [] else t.items[removed[0]].onDispose + Disposers(t, removed[1..])
  }

  /**
   * DebugMenu.RemoveItem (PrivateRemoveItem): the item found and its emptied ancestors
   * are closed, disposed and taken out, bottom-up. Only their own dispose callbacks run.
   */
  function RemoveItem(m: Menu, path: string): (r: Menu)
    requires WellFormed(m.tree)
    ensures var p := Removal.RemoveItem(m.tree, path);
      && Removal.UpLinks(m.tree, p.chain)
      && r.tree == p.tree
      && r.cursor == (if m.cursor in p.chain then Root else m.cursor)
      && r.trace == m.trace + Invoked(Disposers(m.tree, p.chain))
      && r == RunAll(m.(tree := p.tree, cursor := r.cursor), Disposers(m.tree, p.chain))
  {
    var p := Removal.RemoveItem(m.tree, path);
    RunAll(m.(tree := p.tree, cursor := CloseAll(m.cursor, p.chain)), Disposers(m.tree, p.chain))
  }

  /**
   * As written, RemoveItem closes only the removed items themselves: an open item below the
   * removed one stays open although removal has taken it out of the tree.
   */
  lemma RemoveItemStrandsCursor(m: Menu, path: string)
    requires WellFormed(m.tree) && m.cursor in m.tree.items && Attached(m.tree, m.cursor)
    requires Find(m.tree, Paths.Split(path)).found
    requires m.cursor != Find(m.tree, Paths.Split(path)).last
    requires AncestorOrSelf(m.tree, Find(m.tree, Paths.Split(path)).last, m.cursor)
    ensures var r := RemoveItem(m, path);
      && r.cursor == m.cursor && m.cursor in r.tree.items && !Attached(r.tree, r.cursor)
  {
    var t := m.tree;
    var target := Find(t, Paths.Split(path)).last;
    var p := Removal.RemoveItem(t, path);
    assert p == Removal.Prune(t, target);
    Removal.AncestorNotYounger(t, target, m.cursor);
    forall k | 0 <= k < |p.chain| ensures p.chain[k] != m.cursor {
      Removal.UpLinksDecrease(t, p.chain, 0, k);
    }
    Removal.UpLinksAncestor(t, p.chain, 0, |p.chain| - 1);
    AncestorCompose(t, Removal.Top(p), target, m.cursor);
    Removal.PruneDetaches(t, target, m.cursor);
  }

  /** Items a, a/b and a/b/c below the root. */
  function ChainOfThree(): (t: Tree)
    ensures t.items.Keys == {Root, 1, 2, 3}
  {
    Tree(map[
      Root := Item("", None, [1], [], []),
      1 := Item("a", Some(Root), [2], [], []),
      2 := Item("b", Some(1), [3], [], []),
      3 := Item("c", Some(2), [], [], [])], 4)
  }

  /** That tree is well formed, and a/b is attached and has a child. */
  lemma ChainOfThreeWellFormed()
    ensures var t := ChainOfThree(); WellFormed(t) && UniqueSiblings(t) && Attached(t, 2) && !IsLeaf(t, 2)
  {
    var t := ChainOfThree();
    assert ChildrenOk(t, Root) && ChildrenOk(t, 1) && ChildrenOk(t, 2) && ChildrenOk(t, 3);
    assert Attached(t, 1);
  }

  /** In that tree the path "a" resolves to a, and a/b lies below it. */
  lemma ChainOfThreeFindsA()
    ensures var t := ChainOfThree(); Find(t, Paths.Split("a")) == Found(true, 1, 1) && AncestorOrSelf(t, 1, 2)
  {
    var t := ChainOfThree();
    Paths.SplitPlain("a");
    assert FirstNamed(t, [1], "a") == 0;
  }

  /**
   * The smallest case: with items a, a/b and a/b/c registered and a/b open, removing "a"
   * leaves a/b open although nothing in the tree leads to it any more.
   */
  lemma StrandedCursorExample(screen: Rect, combo: Gestures.KeyCombo)
    ensures var m := Menu(ChainOfThree(), 2, [], true, All, false, false, screen, 0, None,
                          Gestures.DefaultConfig, Gestures.Detector(Gestures.Desktop, combo, 0.0), []);
            var r := RemoveItem(m, "a");
      && Valid(m) && r.cursor == 2 && 2 in r.tree.items && !Attached(r.tree, 2)
  {
    var m := Menu(ChainOfThree(), 2, [], true, All, false, false, screen, 0, None,
                  Gestures.DefaultConfig, Gestures.Detector(Gestures.Desktop, combo, 0.0), []);
    ChainOfThreeWellFormed();
    ChainOfThreeFindsA();
    RemoveItemStrandsCursor(m, "a");
  }

  /**
   * The open item after a removal as evidently intended: the root when the removal takes
   * it out of the tree, that is when it lies at or below the topmost removed item;
   * otherwise unchanged.
   */
  function ClosingCursor(t: Tree, path: string, cursor: NodeId): (c: NodeId)
    requires WellFormed(t)
    ensures c == Root || c == cursor
  {
    var p := Removal.RemoveItem(t, path);
    if p.chain != [] && cursor in t.items && AncestorOrSelf(t, Removal.Top(p), cursor) then Root else cursor
  }

  /** The corrected rule closes every removed item, as RemoveItem does, and never leaves the open item outside the tree. */
  lemma ClosingCursorAttached(t: Tree, path: string, cursor: NodeId)
    requires WellFormed(t) && cursor in t.items && Attached(t, cursor)
    ensures var p := Removal.RemoveItem(t, path);
      var c := ClosingCursor(t, path, cursor);
      && (cursor in p.chain ==> c == Root)
      && c in p.tree.items && Attached(p.tree, c)
  {
    var p := Removal.RemoveItem(t, path);
    if cursor in p.chain {
      Removal.UpLinksBelowTop(t, p.chain, cursor);
    }
    Removal.RemoveItemDetaches(t, path, cursor);
    assert Attached(p.tree, Root);
  }

  /** RemoveItem with the corrected rule for the open item; everything else is as in RemoveItem. */
  function RemoveItemClosing(m: Menu, path: string): (r: Menu)
    requires WellFormed(m.tree)
    ensures r == RemoveItem(m, path).(cursor := r.cursor)
    ensures r.cursor == ClosingCursor(m.tree, path, m.cursor)
  {
    var p := Removal.RemoveItem(m.tree, path);
    RunAll(m.(tree := p.tree, cursor := ClosingCursor(m.tree, path, m.cursor)), Disposers(m.tree, p.chain))
  }

  /** With the corrected rule the open item never ends up outside the tree. */
  lemma RemoveItemClosingAttached(m: Menu, path: string)
    requires WellFormed(m.tree) && m.cursor in m.tree.items && Attached(m.tree, m.cursor)
    ensures var r := RemoveItemClosing(m, path);
      && (m.cursor in Removal.RemoveItem(m.tree, path).chain ==> r.cursor == Root)
      && r.cursor in r.tree.items && Attached(r.tree, r.cursor)
  {
    ClosingCursorAttached(m.tree, path, m.cursor);
  }

  // ----- windows -----

  /** The last '/'-separated segment of a path: a window's title. */
  function LastSegment(path: string): (s: string)
    ensures Paths.Separator !in s
  {
    var segs := Paths.Split(path);
    segs[|segs| - 1]
  }

  /** Window.Close on every open window with the given title; every other window stays. */
  function CloseTitled(ws: seq<Windows.Window>, title: string): (r: seq<Windows.Window>)
    ensures |r| == |ws|
    ensures forall i | 0 <= i < |ws| ::
      r[i] == if ws[i].title == title && ws[i].isOpen then Windows.Close(ws[i]) else ws[i]
  {
    if ws == [] then []
    else
      var w := if ws[0].title == title && ws[0].isOpen then Windows.Close(ws[0]) else ws[0];
      [w] + CloseTitled(ws[1..], title)
  }

  /** DebugMenu.CloseWindow (CloseWindowInternal): every open window titled with the path's last segment closes. */
  function CloseWindows(m: Menu, path: string): (r: Menu)
    ensures r == m.(windows := r.windows) && |r.windows| == |m.windows|
  {
    m.(windows := CloseTitled(m.windows, LastSegment(path)))
  }

  /**
   * After CloseWindow no window with that title is open, windows with other titles are
   * untouched, and a second CloseWindow changes nothing.
   */
  lemma CloseWindowsEffect(m: Menu, path: string)
    ensures var r := CloseWindows(m, path);
      && (forall i | 0 <= i < |m.windows| && m.windows[i].title == LastSegment(path) :: !r.windows[i].isOpen)
      && (forall i | 0 <= i < |m.windows| && m.windows[i].title != LastSegment(path) :: r.windows[i] == m.windows[i])
      && CloseWindows(r, path) == r
  {
  }

  /** Where AddWindow places a new window: a given rectangle, the default one, or the default one scaled. */
  datatype Placement = At(rect: Rect) | DefaultPlace | ScaledDefault(scale: Vec2)

  /** Window.DefaultRect: the cached rectangle, or the one computed from the screen now. */
  function DefaultNow(m: Menu): (d: Rect)
    ensures m.defaultRect.Some? ==> d == m.defaultRect.value
    ensures m.defaultRect.None? ==> d == Windows.DefaultRect(m.screen)
  {
    if m.defaultRect.Some? then m.defaultRect.value else Windows.DefaultRect(m.screen)
  }

  /**
   * DebugMenu.AddWindow: a closed window titled with the path's last segment gets the
   * next id, and the path's item gains callbacks that open and close it. Placing at the
   * default rectangle computes and caches it the first time.
   */
  function AddWindow(m: Menu, path: string, place: Placement, scrollBar: bool): (r: Menu)
    requires WellFormed(m.tree)
    ensures |r.windows| == |m.windows| + 1 && r.windows[..|m.windows|] == m.windows
    ensures r.windows[|m.windows|] ==
      Windows.NewWindow(m.nextWindowId, LastSegment(path),
        match place
        case At(rect) => rect
        case DefaultPlace => DefaultNow(m)
        case ScaledDefault(scale) => Windows.Scaled(DefaultNow(m), scale),
        scrollBar)
    ensures r.nextWindowId == m.nextWindowId + 1
    ensures r.defaultRect == if place.At? then m.defaultRect else Some(DefaultNow(m))
    ensures r.tree == Registration.AddItem(m.tree, path, Some(OpenWindow(m.nextWindowId)), Some(CloseWindow(m.nextWindowId)))
    ensures r == m.(windows := r.windows, nextWindowId := r.nextWindowId, defaultRect := r.defaultRect, tree := r.tree)
  {
    var rect := match place
      case At(rect) => rect
      case DefaultPlace => DefaultNow(m)
      case ScaledDefault(scale) => Windows.Scaled(DefaultNow(m), scale);
    var cache := if place.At? then m.defaultRect else Some(DefaultNow(m));
    var id := m.nextWindowId;
    var w := Windows.NewWindow(id, LastSegment(path), rect, scrollBar);
    m.(windows := m.windows + [w], nextWindowId := id + 1, defaultRect := cache,
       tree := Registration.AddItem(m.tree, path, Some(OpenWindow(id)), Some(CloseWindow(id))))
  }

  /** Once computed, the default rectangle no longer follows the screen. */
  lemma DefaultRectCached(m: Menu, path: string, place: Placement, scrollBar: bool, screen: Rect)
    requires WellFormed(m.tree) && !place.At?
    ensures var r := AddWindow(m, path, place, scrollBar);
      DefaultNow(r.(screen := screen)) == DefaultNow(m)
  {
  }

  /**
   * Registering a window under a new path and then selecting that path opens the new
   * window, inside the screen inset, and touches no other window.
   */
  lemma AddWindowThenSelect(m: Menu, path: string, place: Placement, scrollBar: bool)
    requires WellFormed(m.tree) && UniqueSiblings(m.tree) && !Find(m.tree, Paths.Split(path)).found
    requires forall i | 0 <= i < |m.windows| :: m.windows[i].id < m.nextWindowId
    ensures var a := AddWindow(m, path, place, scrollBar);
      var r := SelectItem(a, path);
      && |r.windows| == |a.windows|
      && r.windows[|m.windows|].isOpen && Windows.Inset(r.windows[|m.windows|].rect, m.screen)
      && r.windows[..|m.windows|] == m.windows
      && r.trace == m.trace + [Ran(OpenWindow(m.nextWindowId))]
  {
    SelectNewWindowRuns(m, path, place, scrollBar);
    NewWindowOpens(m, path, place, scrollBar);
  }

  /** Selecting the path of a freshly registered window runs exactly its open handler. */
  lemma SelectNewWindowRuns(m: Menu, path: string, place: Placement, scrollBar: bool)
    requires WellFormed(m.tree) && UniqueSiblings(m.tree) && !Find(m.tree, Paths.Split(path)).found
    ensures var a := AddWindow(m, path, place, scrollBar);
      SelectItem(a, path) == RunAll(a, [OpenWindow(m.nextWindowId)])
  {
    var id := m.nextWindowId;
    Registration.AddItemNewLeaf(m.tree, path, Some(OpenWindow(id)), Some(CloseWindow(id)));
  }

  /** Running the open handler of a freshly registered window opens it inside the screen inset and touches no other window. */
  lemma NewWindowOpens(m: Menu, path: string, place: Placement, scrollBar: bool)
    requires WellFormed(m.tree)
    requires forall i | 0 <= i < |m.windows| :: m.windows[i].id < m.nextWindowId
    ensures var a := AddWindow(m, path, place, scrollBar);
      var r := RunAll(a, [OpenWindow(m.nextWindowId)]);
      && |r.windows| == |a.windows|
      && r.windows[|m.windows|].isOpen && Windows.Inset(r.windows[|m.windows|].rect, m.screen)
      && r.windows[..|m.windows|] == m.windows
      && r.trace == m.trace + [Ran(OpenWindow(m.nextWindowId))]
  {
    var a := AddWindow(m, path, place, scrollBar);
    var id := m.nextWindowId;
    var hs := [OpenWindow(id)];
    assert hs[1..] == [];
    var r := RunAll(a, hs);
    assert r.windows == ForWindow(a.windows, id, true, a.screen) by {
      assert HandleAll(a.windows, a.screen, hs) == HandleAll(Handle(a.windows, a.screen, hs[0]), a.screen, []);
    }
    Windows.OpenFitsAndNeverGrows(a.windows[|m.windows|], m.screen);
    assert r.windows[..|m.windows|] == m.windows by {
      forall i | 0 <= i < |m.windows| ensures r.windows[i] == m.windows[i] {
        assert a.windows[i] == m.windows[i];
      }
    }
  }

  /** Every window's per-frame update (Window.UpdateWindow). */
  function UpdateAll(ws: seq<Windows.Window>): (r: seq<Windows.Window>)
    ensures |r| == |ws| && forall i | 0 <= i < |ws| :: r[i] == Windows.UpdateWindow(ws[i])
  {
    if ws == [] then [] else [Windows.UpdateWindow(ws[0])] + UpdateAll(ws[1..])
  }

  /**
   * DebugMenu.Update: the handler is asked whether to toggle, the menu's visibility flips
   * exactly when it says so, and every window applies its pending touch scrolling.
   */
  function Update(m: Menu, input: Gestures.Input, deltaTime: real): (r: Menu)
    requires m.config.fastTouchTime != 0.0
    ensures var c := Gestures.CheckVisible(m.detector, m.config, input, deltaTime);
      && (r.visible != m.visible <==> c.0)
      && r.detector == c.1
      && r.windows == UpdateAll(m.windows)
      && r.tree == m.tree && r.cursor == m.cursor && r.backgroundActive == m.backgroundActive
      && r.mode == m.mode && r.nextWindowId == m.nextWindowId && r.config == m.config
  {
    var c := Gestures.CheckVisible(m.detector, m.config, input, deltaTime);
    var m1 := m.(detector := c.1);
    var m2 := if c.0 then SetMenuVisible(m1, !m1.visible) else m1;
    m2.(windows := UpdateAll(m2.windows))
  }

  /** A desktop handler keeps no state between frames, so a frame without the key combination changes only the windows. */
  lemma DesktopIdleFrame(m: Menu, input: Gestures.Input, deltaTime: real)
    requires m.config.fastTouchTime != 0.0 && m.detector.platform.Desktop?
    requires !Gestures.KeyboardCheck(m.detector.combo, input.held, input.pressed)
    ensures Update(m, input, deltaTime) == m.(windows := UpdateAll(m.windows))
  {
  }

  /** A pointer event inside the k-th window, which only an open window of a shown menu receives. */
  function WindowInput(m: Menu, k: int, e: Windows.GuiEvent): (r: Menu)
    ensures |r.windows| == |m.windows| && r == m.(windows := r.windows)
    ensures m.visible && 0 <= k < |m.windows| && m.windows[k].isOpen ==>
      r.windows == m.windows[k := Windows.OnWindow(m.windows[k], e, Windows.MinSize(m.config.minWindowWidth, m.config.minWindowHeight)).window]
    ensures !(m.visible && 0 <= k < |m.windows| && m.windows[k].isOpen) ==> r == m
  {
    if m.visible && 0 <= k < |m.windows| && m.windows[k].isOpen then
      var mins := Windows.MinSize(m.config.minWindowWidth, m.config.minWindowHeight);
      m.(windows := m.windows[k := Windows.OnWindow(m.windows[k], e, mins).window])
    else m
  }

  // ----- the controller as a whole -----

  /**
   * What the controller keeps true: a well-formed tree with unique sibling names, an open
   * item that is in the tree and is the root or has children to show, window ids below the
   * counter and increasing in registration order, and a usable hold-time configuration.
   */
  ghost predicate Valid(m: Menu) {
    && WellFormed(m.tree) && UniqueSiblings(m.tree)
    && m.cursor in m.tree.items && Attached(m.tree, m.cursor)
    && (m.cursor == Root || !IsLeaf(m.tree, m.cursor))
    && (forall i | 0 <= i < |m.windows| :: 0 <= m.windows[i].id < m.nextWindowId)
    && (forall i, j | 0 <= i < j < |m.windows| :: m.windows[i].id < m.windows[j].id)
    && m.config.fastTouchTime != 0.0
  }

  /** DebugMenu.Awake: only the root, no windows, a fresh default handler, then Reset. */
  function Awake(screen: Rect, config: Gestures.Config, platform: Gestures.Platform, combo: Gestures.KeyCombo): (m: Menu)
    requires config.fastTouchTime != 0.0
    ensures Valid(m) && Agrees(m)
    ensures m.tree == Empty() && m.cursor == Root && m.windows == [] && m.trace == []
    ensures !m.visible && m.mode == All && !m.backgroundActive && !m.hasCallback
  {
    var start := Menu(Empty(), Root, [], false, All, false, false, screen, 0, None, config,
                      Gestures.Detector(platform, combo, 0.0), []);
    Reset(start, screen)
  }

  /** The buttons of the menu header (DrawHeader). */
  datatype HeaderButton = BackButton | BackgroundButton | ModeButton | CloseButton

  /** Everything that can happen to the controller: the static API, header and item buttons, frames and window input. */
  datatype Command =
    | Register(path: string, onExecute: Option<Handler>, onDispose: Option<Handler>)
    | RegisterWindow(path: string, place: Placement, scrollBar: bool)
    | Unregister(path: string)
    | Select(path: string)
    | CloseWindowsAt(path: string)
    | SetVisible(visible: bool)
    | SetBackgroundCallback(present: bool)
    | Header(button: HeaderButton, screen: Rect)
    | ItemButton(index: int)
    | Frame(input: Gestures.Input, deltaTime: real)
    | PointerInWindow(window: int, event: Windows.GuiEvent)

  /** The header is drawn only while the menu is shown; the background button only while a callback is installed. */
  function PressHeader(m: Menu, b: HeaderButton, screen: Rect): (r: Menu)
    requires WellFormed(m.tree) && m.cursor in m.tree.items
    ensures !m.visible ==> r == m
    ensures m.visible && b == BackButton ==> r == Back(m)
    ensures m.visible && b == BackgroundButton ==>
      r == if m.hasCallback then SetActiveBackground(m, !m.backgroundActive) else m
    ensures m.visible && b == ModeButton ==> r == ToggleMode(m)
    ensures m.visible && b == CloseButton ==> r == Reset(m, screen)
  {
    if !m.visible then m
    else
      match b
      case BackButton => Back(m)
      case BackgroundButton => if m.hasCallback then SetActiveBackground(m, !m.backgroundActive) else m
      case ModeButton => ToggleMode(m)
      case CloseButton => Reset(m, screen)
  }

  /** The controller's response to one command. */
  function Apply(m: Menu, c: Command): Menu
    requires WellFormed(m.tree) && m.cursor in m.tree.items && m.config.fastTouchTime != 0.0
  {
    match c
    case Register(path, oe, od) => AddItem(m, path, oe, od)
    case RegisterWindow(path, place, sb) => AddWindow(m, path, place, sb)
    case Unregister(path) => RemoveItemClosing(m, path)
    case Select(path) => SelectItem(m, path)
    case CloseWindowsAt(path) => CloseWindows(m, path)
    case SetVisible(v) => SetMenuVisible(m, v)
    case SetBackgroundCallback(present) => SetCallback(m, present)
    case Header(b, screen) => PressHeader(m, b, screen)
    case ItemButton(i) => PressChild(m, i)
    case Frame(input, dt) => Update(m, input, dt)
    case PointerInWindow(k, e) => WindowInput(m, k, e)
  }

  /** One command applied to a valid controller keeps it valid. */
  function Step(m: Menu, c: Command): (r: Menu)
    requires Valid(m)
    ensures Valid(r)
  {
    ApplyValid(m, c);
    Apply(m, c)
  }

  lemma ApplyValid(m: Menu, c: Command)
    requires Valid(m)
    ensures Valid(Apply(m, c))
  {
    match c
    case Register(path, oe, od) => AddItemValid(m, path, oe, od);
    case RegisterWindow(path, place, sb) => AddWindowValid(m, path, place, sb);
    case Unregister(path) => RemoveItemValid(m, path);
    case Select(path) => SelectItemValid(m, path);
    case CloseWindowsAt(path) => CloseWindowsValid(m, path);
    case SetVisible(v) => FlagsValid(m, m.(visible := v));
    case SetBackgroundCallback(present) => FlagsValid(m, SetCallback(m, present));
    case Header(b, screen) => PressHeaderValid(m, b, screen);
    case ItemButton(i) => PressChildValid(m, i);
    case Frame(input, dt) => UpdateValid(m, input, dt);
    case PointerInWindow(k, e) => WindowInputValid(m, k, e);
  }

  /** Changing only flags, the trace or the screen keeps the controller valid. */
  lemma FlagsValid(m: Menu, r: Menu)
    requires Valid(m)
    requires r.tree == m.tree && r.cursor == m.cursor && r.windows == m.windows
    requires r.nextWindowId == m.nextWindowId && r.config == m.config
    ensures Valid(r)
  {
  }

  lemma UpdateValid(m: Menu, input: Gestures.Input, deltaTime: real)
    requires Valid(m)
    ensures Valid(Update(m, input, deltaTime))
  {
    var r := Update(m, input, deltaTime);
    assert forall i | 0 <= i < |m.windows| :: r.windows[i].id == m.windows[i].id;
  }

  lemma WindowInputValid(m: Menu, k: int, e: Windows.GuiEvent)
    requires Valid(m)
    ensures Valid(WindowInput(m, k, e))
  {
    var r := WindowInput(m, k, e);
    assert forall i | 0 <= i < |m.windows| :: r.windows[i].id == m.windows[i].id;
  }

  /** Window callbacks never change the tree, the open item, the counter or window ids. */
  lemma RunAllValid(m: Menu, hs: seq<Handler>)
    requires Valid(m)
    ensures Valid(RunAll(m, hs))
  {
    var r := RunAll(m, hs);
    assert forall i | 0 <= i < |m.windows| :: r.windows[i].id == m.windows[i].id;
  }

  /** A tree that only grows keeps the open item attached and still showing children. */
  lemma GrowKeepsCursor(t: Tree, t2: Tree, c: NodeId)
    requires WellFormed(t) && WellFormed(t2) && SameLinks(t, t2) && KeepsChildren(t, t2)
    requires c in t.items && Attached(t, c) && (c == Root || !IsLeaf(t, c))
    ensures c in t2.items && Attached(t2, c) && (c == Root || !IsLeaf(t2, c))
  {
    AttachedStable(t, t2, c);
    if c != Root {
      assert t.items[c].children[0] in t2.items[c].children;
    }
  }

  lemma AddItemValid(m: Menu, path: string, onExecute: Option<Handler>, onDispose: Option<Handler>)
    requires Valid(m)
    ensures Valid(AddItem(m, path, onExecute, onDispose))
  {
    var r := AddItem(m, path, onExecute, onDispose);
    Registration.AddItemUnique(m.tree, path, onExecute, onDispose);
    Registration.AddItemGrows(m.tree, path, onExecute, onDispose);
    GrowKeepsCursor(m.tree, r.tree, m.cursor);
  }

  lemma AddWindowValid(m: Menu, path: string, place: Placement, scrollBar: bool)
    requires Valid(m)
    ensures Valid(AddWindow(m, path, place, scrollBar))
  {
    var r := AddWindow(m, path, place, scrollBar);
    var id := m.nextWindowId;
    Registration.AddItemUnique(m.tree, path, Some(OpenWindow(id)), Some(CloseWindow(id)));
    Registration.AddItemGrows(m.tree, path, Some(OpenWindow(id)), Some(CloseWindow(id)));
    GrowKeepsCursor(m.tree, r.tree, m.cursor);
    assert forall i | 0 <= i < |m.windows| :: r.windows[i] == m.windows[i];
  }

  lemma SelectItemValid(m: Menu, path: string)
    requires Valid(m)
    ensures Valid(SelectItem(m, path))
  {
    var f := Find(m.tree, Paths.Split(path));
    FindSound(m.tree, Paths.Split(path));
    if f.found && IsLeaf(m.tree, f.last) {
      RunAllValid(m, m.tree.items[f.last].onExecute);
    }
  }

  lemma PressChildValid(m: Menu, i: int)
    requires Valid(m)
    ensures Valid(PressChild(m, i))
  {
    var cs := m.tree.items[m.cursor].children;
    if m.visible && m.mode == All && 0 <= i < |cs| {
      assert ChildrenOk(m.tree, m.cursor);
      if IsLeaf(m.tree, cs[i]) {
        RunAllValid(m, m.tree.items[cs[i]].onExecute);
      }
    }
  }

  lemma BackValid(m: Menu)
    requires Valid(m)
    ensures Valid(Back(m))
  {
    var p := m.tree.items[m.cursor].parent;
    if p.Some? {
      assert m.cursor != Root && ParentOk(m.tree, m.cursor);
      if IsLeaf(m.tree, p.value) {
        RunAllValid(m.(cursor := Root), m.tree.items[p.value].onExecute);
      }
    }
  }

  lemma PressHeaderValid(m: Menu, b: HeaderButton, screen: Rect)
    requires Valid(m)
    ensures Valid(PressHeader(m, b, screen))
  {
    if m.visible && b == BackButton {
      BackValid(m);
    }
  }

  lemma CloseWindowsValid(m: Menu, path: string)
    requires Valid(m)
    ensures Valid(CloseWindows(m, path))
  {
    var r := CloseWindows(m, path);
    assert forall i | 0 <= i < |m.windows| :: r.windows[i].id == m.windows[i].id;
  }

  /**
   * The corrected removal keeps the controller valid: an open item the removal takes out
   * goes back to the root, and an item the loop stopped at is the root or keeps children.
   */
  lemma RemoveItemValid(m: Menu, path: string)
    requires Valid(m)
    ensures Valid(RemoveItemClosing(m, path))
  {
    var p := Removal.RemoveItem(m.tree, path);
    var f := Find(m.tree, Paths.Split(path));
    var r := RemoveItemClosing(m, path);
    var m1 := m.(tree := p.tree, cursor := r.cursor);
    RemoveItemClosingAttached(m, path);
    if f.found && r.cursor != Root {
      Removal.PruneItems(m.tree, f.last, m.cursor);
      if m.cursor == Removal.StoppedAt(m.tree, f.last) {
        Removal.PruneStops(m.tree, f.last);
      }
    }
    if f.found {
      Removal.PruneUnique(m.tree, f.last);
    }
    assert Valid(m1);
    RunAllValid(m1, Disposers(m.tree, p.chain));
  }

  // ----- the background callback stays in step with the menu -----

  /** Item and window callbacks leave the background callback's view as it was. */
  lemma RunAllAgrees(m: Menu, hs: seq<Handler>)
    requires Agrees(m)
    ensures Agrees(RunAll(m, hs))
  {
    LastSentIgnoresRuns(m.trace, hs);
  }

  /** Showing or hiding the menu tells the callback exactly when the user has not pinned touches on. */
  lemma SetMenuVisibleAgrees(m: Menu, v: bool)
    requires Agrees(m)
    ensures Agrees(SetMenuVisible(m, v))
  {
    var r := SetMenuVisible(m, v);
    if !m.backgroundActive && m.hasCallback {
      assert r.trace[|r.trace| - 1] == BackgroundChanged(!v);
    }
  }

  /** Installing a callback starts its view afresh: it has been told nothing yet. */
  lemma SetCallbackForgets(m: Menu, present: bool)
    ensures LastSent(SetCallback(m, present).trace) == None
    ensures Agrees(SetCallback(m, present))
  {
    var r := SetCallback(m, present);
    assert r.trace[|r.trace| - 1] == CallbackSet(present);
  }

  /** The background button, drawn only while the menu is shown, tells the callback the new switch. */
  lemma BackgroundButtonAgrees(m: Menu)
    requires m.visible
    ensures var r := SetActiveBackground(m, !m.backgroundActive);
      Agrees(r) && (m.hasCallback ==> LastSent(r.trace) == Some(r.backgroundActive))
  {
    var r := SetActiveBackground(m, !m.backgroundActive);
    if m.hasCallback {
      assert r.trace[|r.trace| - 1] == BackgroundChanged(!m.backgroundActive);
    }
  }

  lemma BackAgrees(m: Menu)
    requires WellFormed(m.tree) && m.cursor in m.tree.items && Agrees(m)
    ensures Agrees(Back(m))
  {
    var p := m.tree.items[m.cursor].parent;
    if p.Some? {
      assert m.cursor != Root && ParentOk(m.tree, m.cursor);
      if IsLeaf(m.tree, p.value) {
        RunAllAgrees(m.(cursor := Root), m.tree.items[p.value].onExecute);
      }
    }
  }

  lemma UpdateAgrees(m: Menu, input: Gestures.Input, deltaTime: real)
    requires m.config.fastTouchTime != 0.0 && Agrees(m)
    ensures Agrees(Update(m, input, deltaTime))
  {
    var c := Gestures.CheckVisible(m.detector, m.config, input, deltaTime);
    var m1 := m.(detector := c.1);
    if c.0 {
      SetMenuVisibleAgrees(m1, !m1.visible);
    }
  }

  lemma RemoveItemAgrees(m: Menu, path: string)
    requires WellFormed(m.tree) && Agrees(m)
    ensures Agrees(RemoveItemClosing(m, path))
  {
    var p := Removal.RemoveItem(m.tree, path);
    RunAllAgrees(m.(tree := p.tree, cursor := RemoveItemClosing(m, path).cursor), Disposers(m.tree, p.chain));
  }

  lemma SelectItemAgrees(m: Menu, path: string)
    requires WellFormed(m.tree) && Agrees(m)
    ensures Agrees(SelectItem(m, path))
  {
    var f := Find(m.tree, Paths.Split(path));
    if f.found && IsLeaf(m.tree, f.last) {
      RunAllAgrees(m, m.tree.items[f.last].onExecute);
    }
  }

  lemma PressChildAgrees(m: Menu, i: int)
    requires WellFormed(m.tree) && m.cursor in m.tree.items && Agrees(m)
    ensures Agrees(PressChild(m, i))
  {
    var cs := m.tree.items[m.cursor].children;
    if m.visible && m.mode == All && 0 <= i < |cs| {
      assert ChildrenOk(m.tree, m.cursor);
      if IsLeaf(m.tree, cs[i]) {
        RunAllAgrees(m, m.tree.items[cs[i]].onExecute);
      }
    }
  }

  lemma PressHeaderAgrees(m: Menu, b: HeaderButton, screen: Rect)
    requires WellFormed(m.tree) && m.cursor in m.tree.items && Agrees(m)
    ensures Agrees(PressHeader(m, b, screen))
  {
    if m.visible {
      match b
      case BackButton => BackAgrees(m);
      case BackgroundButton => BackgroundButtonAgrees(m);
      case ModeButton =>
      case CloseButton => SetMenuVisibleAgrees(m.(screen := screen), false);
    }
  }

  /** Whatever happens, the last value the background callback heard matches the menu's state. */
  lemma StepAgrees(m: Menu, c: Command)
    requires Valid(m) && Agrees(m)
    ensures Agrees(Step(m, c))
  {
    ApplyAgrees(m, c);
  }

  lemma ApplyAgrees(m: Menu, c: Command)
    requires WellFormed(m.tree) && m.cursor in m.tree.items && m.config.fastTouchTime != 0.0
    requires Agrees(m)
    ensures Agrees(Apply(m, c))
  {
    match c
    case Register(path, oe, od) =>
    case RegisterWindow(path, place, sb) =>
    case Unregister(path) => RemoveItemAgrees(m, path);
    case Select(path) => SelectItemAgrees(m, path);
    case CloseWindowsAt(path) =>
    case SetVisible(v) => SetMenuVisibleAgrees(m, v);
    case SetBackgroundCallback(present) => SetCallbackForgets(m, present);
    case Header(b, screen) => PressHeaderAgrees(m, b, screen);
    case ItemButton(i) => PressChildAgrees(m, i);
    case Frame(input, dt) => UpdateAgrees(m, input, dt);
    case PointerInWindow(k, e) =>
  }
}
