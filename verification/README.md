# Unity debug menu — a Dafny model

This project models the runtime core of the Unity debug menu package
(`com.daitokuamy.unitydebugmenu`). The package shows an in-game overlay of buttons.
Items are registered under `/`-separated paths. Opening a branch shows its children,
and opening a leaf runs its callbacks. Some items open and close floating debug windows.
A gesture or key combination shows and hides the menu.

What is modelled, module by module:

- `Paths`: `String.Split('/')` and its inverse, joining with `/`.
- `Items`: the item tree as an arena. It is a map from ids to items, and each item has a
  name, an optional Parent, a Children list and its execute and dispose callbacks.
  - `Find` models `FindItem`.
  - `FullPath`, `IsLeaf` and the invariants `WellFormed` and `UniqueSiblings` are here too.
  - The arena keeps the source's object semantics. A removed item keeps its Parent
    reference, and the open item of the menu can outlive its removal.
- `Registration`: `PrivateAddItem`. It either subscribes callbacks to an existing item,
  or hangs a chain of new items for the unmatched suffix of the path.
- `Removal`: the removal loop of `PrivateRemoveItem`. It detaches the item found, then
  every ancestor left without children, stopping below the root.
- `Controller`: the `DebugMenu` controller.
  - State: the tree, the open item (the cursor), the registered windows, visibility, the
    view mode and the background-touch switch.
  - Item callbacks are handler values. Each invocation is appended to a trace. The
    callbacks `AddWindow` registers also open or close their window.
  - `Step` applies any one command (an API call, a header or item button, a frame, a
    pointer event in a window) and keeps the controller's invariant `Valid`.
- `Windows`: `DebugMenu.Window`.
  - Creation, the default rectangle, and `Open` clamping into the screen inset.
  - `Close`, and the per-frame scroll update.
  - Resize with a minimum size, and the per-event pointer dispatch in `OnWindow`.
- `Gestures`: `DefaultDebugMenuHandler.CheckVisible`. It covers the key-combination
  check and the multi-finger hold timer, and the configuration defaults.
- `Selectors`: the index arithmetic of the arrow and button selectors (plain and enum),
  including C#'s truncating `%`, and `ToggleButton`.
- `Scopes`: `LabelFieldWidthScope`, `ChangeCheckScope` and `LabelValueField`.
- `Layout`: the row-packing loop of `Item.Draw`, with button widths given as input.

Geometry and time are `real`. The screen rectangle, button widths, key and touch state,
frame times and GUI events are parameters.

Source cells below are paths in the package's repository.

## Model

| member | source | states |
|---|---|---|
| Paths.Split | Packages/com.daitokuamy.unitydebugmenu/Runtime/DebugMenu.cs:279 | Splitting at '/' gives at least one segment, and no segment contains '/'. |
| Paths.JoinSplit | Packages/com.daitokuamy.unitydebugmenu/Runtime/DebugMenu.cs:279 | Joining the segments of a split with '/' gives back the original path, empty segments included. |
| Paths.SplitJoin | Packages/com.daitokuamy.unitydebugmenu/Runtime/DebugMenu.cs:279 | Segments free of '/' come back unchanged from a join followed by a split. |
| Items.Empty | Packages/com.daitokuamy.unitydebugmenu/Runtime/DebugMenu.cs:557 | The tree holding only the nameless root is well formed and has unique sibling names. |
| Items.Names | Packages/com.daitokuamy.unitydebugmenu/Runtime/DebugMenu.Item.cs:32-44 | The name path of an item is empty exactly for the root. |
| Items.FullPath | Packages/com.daitokuamy.unitydebugmenu/Runtime/DebugMenu.Item.cs:32-44 | Walking the Parent chain and prefixing "name/" at each step gives the root's empty name followed by the item's name path, joined with '/'. |
| Items.FullPathOfFound | Packages/com.daitokuamy.unitydebugmenu/Runtime/DebugMenu.Item.cs:32-44 | The item found under a path p has FullPath "/" + p: the leading '/' comes from the root's empty name. |
| Items.FirstNamed | Packages/com.daitokuamy.unitydebugmenu/Runtime/DebugMenu.Item.cs:166-172 | The foreach picks the first child with the wanted name; every child before it has another name. |
| Items.FindFrom | Packages/com.daitokuamy.unitydebugmenu/Runtime/DebugMenu.Item.cs:156-175 | The search returns true exactly when it matched every segment, and on failure it stops at an item with no child named the next segment. |
| Items.FindSound | Packages/com.daitokuamy.unitydebugmenu/Runtime/DebugMenu.Item.cs:156-175 | On success lastItem is attached, its name path is exactly the segments, and lastIndex counts them all. On failure lastIndex counts the matched prefix, lastItem is where that prefix ends, and it has no child named the next segment. |
| Items.FindComplete | Packages/com.daitokuamy.unitydebugmenu/Runtime/DebugMenu.Item.cs:156-175 | With unique sibling names, every attached item is found by its own name path. |
| Items.FindResolves | Packages/com.daitokuamy.unitydebugmenu/Runtime/DebugMenu.Item.cs:156-175 | With unique sibling names, FindItem succeeds exactly when some attached item has the segments as its name path, and then it returns that item. |
| Items.NoBacktracking | Packages/com.daitokuamy.unitydebugmenu/Runtime/DebugMenu.Item.cs:164-174 | With two siblings named "a", only the second having a child "b", the path a/b names an attached item, yet the search fails at the first "a" after one segment. |
| Registration.Subscribed | Packages/com.daitokuamy.unitydebugmenu/Runtime/DebugMenu.cs:283-284 | Adding a null delegate changes nothing; adding a handler appends it after the existing ones. |
| Registration.AddItemExisting | Packages/com.daitokuamy.unitydebugmenu/Runtime/DebugMenu.cs:281-284 | Registering a path that resolves keeps every name, Parent and Children list and all other items. Only the found item's callbacks grow, and the path still resolves to the same item. |
| Registration.AddItemNew | Packages/com.daitokuamy.unitydebugmenu/Runtime/DebugMenu.cs:286-300 | A path that does not resolve gets a chain for its unmatched segments, hung below the deepest matched item, which has no child named the first unmatched segment. |
| Registration.AddChainShape | Packages/com.daitokuamy.unitydebugmenu/Runtime/DebugMenu.cs:288-299 | The chain creates exactly one new item per unmatched segment, with fresh consecutive ids. Each is appended at the end of its parent's Children, only the last holds the callbacks, and no older item except the base changes. |
| Registration.AddItemNewResolves | Packages/com.daitokuamy.unitydebugmenu/Runtime/DebugMenu.cs:286-300 | With unique sibling names, a path that did not resolve resolves after registration to the last new item, and sibling names stay unique. |
| Registration.AddItemNewLeaf | Packages/com.daitokuamy.unitydebugmenu/Runtime/DebugMenu.cs:286-300 | The item a new path resolves to is a leaf whose callbacks are exactly the ones registered. |
| Registration.AddItem | Packages/com.daitokuamy.unitydebugmenu/Runtime/DebugMenu.cs:276-301 | Registration keeps the tree well formed. |
| Registration.AddItemGrows | Packages/com.daitokuamy.unitydebugmenu/Runtime/DebugMenu.cs:276-301 | Registration only adds: no item, name, Parent reference or child is lost. |
| Registration.AddItemUnique | Packages/com.daitokuamy.unitydebugmenu/Runtime/DebugMenu.cs:276-301 | Registration keeps sibling names unique. |
| Removal.Without | Packages/com.daitokuamy.unitydebugmenu/Runtime/DebugMenu.cs:344 | List.Remove takes out one occurrence: the list is unchanged when it lacks the entry and one shorter otherwise, and every other entry stays. |
| Removal.RemoveChild | Packages/com.daitokuamy.unitydebugmenu/Runtime/DebugMenu.cs:344 | Only the parent's Children list changes, losing the child. |
| Removal.Prune | Packages/com.daitokuamy.unitydebugmenu/Runtime/DebugMenu.cs:338-350 | The removed chain starts with the item found. The loop keeps the tree well formed and deletes no item object. |
| Removal.PruneChain | Packages/com.daitokuamy.unitydebugmenu/Runtime/DebugMenu.cs:345-346 | The removed chain climbs Parent references and never contains the root. |
| Removal.StoppedAt | Packages/com.daitokuamy.unitydebugmenu/Runtime/DebugMenu.cs:345-350 | The loop stops at the parent of the last removed item, older than every removed item. |
| Removal.PruneContinues | Packages/com.daitokuamy.unitydebugmenu/Runtime/DebugMenu.cs:350 | Each removed ancestor had no children left once the item below it was taken out. |
| Removal.PruneStops | Packages/com.daitokuamy.unitydebugmenu/Runtime/DebugMenu.cs:350 | The loop stops at the root or at an item that still has children. |
| Removal.PruneDetaches | Packages/com.daitokuamy.unitydebugmenu/Runtime/DebugMenu.cs:330-352 | After the loop an item is attached exactly when it was attached before and does not lie at or below the topmost removed item. |
| Removal.RemoveItem | Packages/com.daitokuamy.unitydebugmenu/Runtime/DebugMenu.cs:330-352 | A path that does not resolve changes nothing. Otherwise the removed chain starts at the item found, never contains the root and climbs Parent references, and the tree stays well formed. |
| Removal.RemoveItemUnresolves | Packages/com.daitokuamy.unitydebugmenu/Runtime/DebugMenu.cs:330-352 | With unique sibling names, the removed path no longer resolves. |
| Removal.RemoveItemKeepsOthers | Packages/com.daitokuamy.unitydebugmenu/Runtime/DebugMenu.cs:330-352 | Every attached item outside the removed subtree is still found by its own name path. |
| Removal.RemoveItemDetaches | Packages/com.daitokuamy.unitydebugmenu/Runtime/DebugMenu.cs:330-352 | An attached item stays attached exactly when it is not at or below the topmost removed item: the whole subtree goes. |
| Removal.RemoveItemSparesDescendants | Packages/com.daitokuamy.unitydebugmenu/Runtime/DebugMenu.Item.cs:58-60 | No item strictly below the one found is in the removed chain, so its dispose callbacks never run. |
| Controller.Invoked | Packages/com.daitokuamy.unitydebugmenu/Runtime/DebugMenu.Item.cs:85-91 | Invoking a multicast callback runs each subscribed handler once, in subscription order; no handler runs nothing. |
| Controller.Handle | Packages/com.daitokuamy.unitydebugmenu/Runtime/DebugMenu.cs:151 | A handler keeps every window's id and title, and a handler that is not a window callback changes no window. |
| Controller.RunAllAppend | Packages/com.daitokuamy.unitydebugmenu/Runtime/DebugMenu.Item.cs:85-91 | Running handlers a and then handlers b is the same as running a + b. |
| Controller.OpenWindowHandler | Packages/com.daitokuamy.unitydebugmenu/Runtime/DebugMenu.cs:151 | The open callback opens its window inside the screen inset and leaves every other window untouched. |
| Controller.SetMenuVisible | Packages/com.daitokuamy.unitydebugmenu/Runtime/DebugMenu.cs:604-611 | Visibility is set. The background callback, if installed, hears !visible only while touch is not pinned on. |
| Controller.SetActiveBackground | Packages/com.daitokuamy.unitydebugmenu/Runtime/DebugMenu.cs:616-619 | The switch is set, and an installed callback always hears the new value. |
| Controller.LastSent | Packages/com.daitokuamy.unitydebugmenu/Runtime/DebugMenu.cs:609 | The value the background callback last heard really was sent since it was installed. |
| Controller.SetMenuVisibleAgrees | Packages/com.daitokuamy.unitydebugmenu/Runtime/DebugMenu.cs:604-611 | After showing or hiding, the callback's last value still says whether touches reach the scene: pinned on, or menu hidden. |
| Controller.BackgroundButtonAgrees | Packages/com.daitokuamy.unitydebugmenu/Runtime/DebugMenu.cs:518-528 | Pressing the background button on a shown menu leaves the callback agreeing with the menu. |
| Controller.SetCallbackForgets | Packages/com.daitokuamy.unitydebugmenu/Runtime/DebugMenu.cs:117-119 | Installing a callback does not call it: it has heard nothing yet. |
| Controller.StepAgrees | Packages/com.daitokuamy.unitydebugmenu/Runtime/DebugMenu.cs:604-619 | No command breaks the agreement between the background callback and the menu. |
| Controller.ToggleMode | Packages/com.daitokuamy.unitydebugmenu/Runtime/DebugMenu.cs:530-534 | The mode button changes the mode and nothing else. |
| Controller.ToggleModeTwice | Packages/com.daitokuamy.unitydebugmenu/Runtime/DebugMenu.cs:530-534 | Two presses of the mode button restore the menu. |
| Controller.Reset | Packages/com.daitokuamy.unitydebugmenu/Runtime/DebugMenu.cs:546-551 | Reset hides the menu, selects mode All, opens the root and takes the new screen. Tree, windows, background switch and window counter are kept. |
| Controller.Focus | Packages/com.daitokuamy.unitydebugmenu/Runtime/DebugMenu.cs:384-390 | OpenItem ignores a leaf and makes a branch the open item. |
| Controller.OpenItem | Packages/com.daitokuamy.unitydebugmenu/Runtime/DebugMenu.Item.cs:65-72 | Opening a leaf runs its execute callbacks and keeps the open item; opening a branch only makes it the open item. |
| Controller.Back | Packages/com.daitokuamy.unitydebugmenu/Runtime/DebugMenu.Item.cs:77-80 | Back moves to the parent, or to the root when there is none; the tree and trace are kept. |
| Controller.BackAtRoot | Packages/com.daitokuamy.unitydebugmenu/Runtime/DebugMenu.Item.cs:77-80 | Back at the root changes nothing. |
| Controller.OpenThenBack | Packages/com.daitokuamy.unitydebugmenu/Runtime/DebugMenu.Item.cs:65-80 | Opening a child branch and pressing Back restores the menu. |
| Controller.SelectItem | Packages/com.daitokuamy.unitydebugmenu/Runtime/DebugMenu.cs:357-364 | A path that does not resolve does nothing. A found branch becomes the open item. A found leaf runs its execute callbacks and leaves the open item. |
| Controller.SelectedBranchShowsPath | Packages/com.daitokuamy.unitydebugmenu/Runtime/DebugMenu.cs:511 | After selecting a branch, the header shows "/" followed by the selected path. |
| Controller.PressChild | Packages/com.daitokuamy.unitydebugmenu/Runtime/DebugMenu.cs:422-425 | Child buttons exist only while the menu is shown in mode All. Pressing the i-th opens that child, and any other press does nothing. |
| Controller.AddItem | Packages/com.daitokuamy.unitydebugmenu/Runtime/DebugMenu.cs:133-140 | Registration changes only the tree and keeps it well formed. |
| Controller.CloseAll | Packages/com.daitokuamy.unitydebugmenu/Runtime/DebugMenu.cs:395-401 | Calling CloseItem on each removed item resets the open item to the root exactly when it is one of them. |
| Controller.RemoveItem | Packages/com.daitokuamy.unitydebugmenu/Runtime/DebugMenu.cs:330-352 | The tree loses the chain that Removal.RemoveItem describes. The open item resets only if it is in that chain. The removed items' own dispose callbacks run bottom-up. |
| Controller.RemoveItemStrandsCursor | Packages/com.daitokuamy.unitydebugmenu/Runtime/DebugMenu.cs:395-401 | As written, an open item strictly below the removed one stays open although removal has detached it from the tree. |
| Controller.StrandedCursorExample | Packages/com.daitokuamy.unitydebugmenu/Runtime/DebugMenu.cs:330-352 | Concretely: with a, a/b and a/b/c registered and a/b open, removing "a" leaves a/b open and detached. |
| Controller.ClosingCursor | Packages/com.daitokuamy.unitydebugmenu/Runtime/DebugMenu.cs:395-401 | The corrected rule: the open item becomes the root or stays as it was. |
| Controller.ClosingCursorAttached | Packages/com.daitokuamy.unitydebugmenu/Runtime/DebugMenu.cs:395-401 | The corrected rule closes every removed item, as the original does, and never leaves the open item detached. |
| Controller.RemoveItemClosing | Packages/com.daitokuamy.unitydebugmenu/Runtime/DebugMenu.cs:330-352 | Removal with the corrected rule differs from the original only in the open item. |
| Controller.RemoveItemClosingAttached | Packages/com.daitokuamy.unitydebugmenu/Runtime/DebugMenu.cs:330-352 | With the corrected rule the open item is attached after every removal. |
| Controller.LastSegment | Packages/com.daitokuamy.unitydebugmenu/Runtime/DebugMenu.cs:148-149 | A window's title, the path's last segment, contains no '/'. |
| Controller.CloseTitled | Packages/com.daitokuamy.unitydebugmenu/Runtime/DebugMenu.cs:373-378 | Each open window with the title is closed, and every other window is kept as it was. |
| Controller.CloseWindows | Packages/com.daitokuamy.unitydebugmenu/Runtime/DebugMenu.cs:369-379 | CloseWindow changes only the windows and keeps their number. |
| Controller.CloseWindowsEffect | Packages/com.daitokuamy.unitydebugmenu/Runtime/DebugMenu.cs:369-379 | Afterwards no window with the title is open, windows with other titles are untouched, and closing again changes nothing. |
| Controller.DefaultNow | Packages/com.daitokuamy.unitydebugmenu/Runtime/DebugMenu.Window.cs:32-44 | The default rectangle is the cached one once cached, otherwise the one computed from the screen. |
| Controller.AddWindow | Packages/com.daitokuamy.unitydebugmenu/Runtime/DebugMenu.cs:146-165 | A closed window titled with the last segment is appended with the next id, at the given, default or scaled default rectangle. The default rectangle gets cached. The path's item gains callbacks that open and close exactly this window. |
| Controller.DefaultRectCached | Packages/com.daitokuamy.unitydebugmenu/Runtime/DebugMenu.Window.cs:32-44 | Once computed, the default rectangle no longer follows the screen. |
| Controller.SelectNewWindowRuns | Packages/com.daitokuamy.unitydebugmenu/Runtime/DebugMenu.cs:151 | Selecting the path of a freshly registered window runs exactly its open callback. |
| Controller.NewWindowOpens | Packages/com.daitokuamy.unitydebugmenu/Runtime/DebugMenu.cs:151 | That callback opens the new window inside the screen inset and touches no other window. |
| Controller.AddWindowThenSelect | Packages/com.daitokuamy.unitydebugmenu/Runtime/DebugMenu.cs:146-152 | Registering a window under a new path and selecting it opens the new window and no other, and traces one callback. |
| Controller.UpdateAll | Packages/com.daitokuamy.unitydebugmenu/Runtime/DebugMenu.cs:594-598 | Every window gets its per-frame update. |
| Controller.Update | Packages/com.daitokuamy.unitydebugmenu/Runtime/DebugMenu.cs:584-599 | Visibility flips exactly when the handler says so, and the handler's state advances. Every window applies its pending scroll, and the tree, open item, mode and switch are kept. |
| Controller.DesktopIdleFrame | Packages/com.daitokuamy.unitydebugmenu/Runtime/DefaultDebugMenuHandler.cs:78-96 | On desktop, a frame without the key combination changes only the windows: the keyboard check keeps no state. |
| Controller.WindowInput | Packages/com.daitokuamy.unitydebugmenu/Runtime/DebugMenu.Window.cs:214-220 | Only an open window of a shown menu receives pointer events; the event changes that window alone. |
| Controller.Awake | Packages/com.daitokuamy.unitydebugmenu/Runtime/DebugMenu.cs:556-570 | A new menu has only the root, open, no windows, hidden, mode All, no callback, and satisfies the invariant. |
| Controller.PressHeader | Packages/com.daitokuamy.unitydebugmenu/Runtime/DebugMenu.cs:502-541 | The header works only while shown. Back goes up, the background button flips the switch if a callback is installed, the mode button toggles, and close resets. |
| Controller.Step | Packages/com.daitokuamy.unitydebugmenu/Runtime/DebugMenu.cs:384-390 | Every command keeps the invariant. The tree is well formed with unique sibling names. The open item is attached and is the root or a branch. Window ids are below the counter and increase in registration order. |
| Controller.ApplyValid | Packages/com.daitokuamy.unitydebugmenu/Runtime/DebugMenu.cs:384-390 | The same invariant for each command, case by case. |
| Controller.AddWindowValid | Packages/com.daitokuamy.unitydebugmenu/Runtime/DebugMenu.Window.cs:84 | Window ids come from a post-incremented counter, so they stay pairwise distinct and increasing. |
| Controller.RemoveItemValid | Packages/com.daitokuamy.unitydebugmenu/Runtime/DebugMenu.cs:330-352 | Removal with the corrected rule for the open item keeps the invariant. |
| Controller.AddItemValid | Packages/com.daitokuamy.unitydebugmenu/Runtime/DebugMenu.cs:276-301 | Registration keeps the invariant: the open item stays attached and keeps its children. |
| Windows.NewWindow | Packages/com.daitokuamy.unitydebugmenu/Runtime/DebugMenu.Window.cs:83-101 | A new window is closed, at rest, not resizing or scrolling, and scrolled to the origin. |
| Windows.DefaultRect | Packages/com.daitokuamy.unitydebugmenu/Runtime/DebugMenu.Window.cs:32-44 | The default rectangle is the screen with its left, right and bottom edges moved in by 5 and its top edge moved down by two button heights (48). |
| Windows.Scaled | Packages/com.daitokuamy.unitydebugmenu/Runtime/DebugMenu.cs:160-165 | The scaled rectangle keeps the default's corner and scales its width and height per axis. |
| Windows.Open | Packages/com.daitokuamy.unitydebugmenu/Runtime/DebugMenu.Window.cs:189-200 | Open sets the open flag and clamps each edge independently into the inset, changing nothing else. |
| Windows.OpenFitsAndNeverGrows | Packages/com.daitokuamy.unitydebugmenu/Runtime/DebugMenu.Window.cs:189-200 | An opened window lies inside the inset, and no edge moves outward. |
| Windows.OpenKeepsFitting | Packages/com.daitokuamy.unitydebugmenu/Runtime/DebugMenu.Window.cs:189-200 | A window already inside the inset opens where it is. |
| Windows.OpenIdempotent | Packages/com.daitokuamy.unitydebugmenu/Runtime/DebugMenu.Window.cs:189-200 | Opening twice is opening once. |
| Windows.OpenShrinksNotShifts | Packages/com.daitokuamy.unitydebugmenu/Runtime/DebugMenu.Window.cs:195-196 | A window sticking out to the right keeps its left edge and loses width: it shrinks rather than moves. |
| Windows.DefaultRectsOpenInPlace | Packages/com.daitokuamy.unitydebugmenu/Runtime/DebugMenu.Window.cs:128-132 | The default rectangle, and any scaling of it by factors in [0, 1], opens unchanged. |
| Windows.Close | Packages/com.daitokuamy.unitydebugmenu/Runtime/DebugMenu.Window.cs:205-209 | Close clears the open flag, the resize flag and the scroll offset. It keeps the rectangle, the scroll-area flag and the pending scroll. |
| Windows.StaleScrollAfterReopen | Packages/com.daitokuamy.unitydebugmenu/Runtime/DebugMenu.Window.cs:205-231 | Scrolling left pending when a window closed is applied on the first frame after it reopens. |
| Windows.UpdateWindow | Packages/com.daitokuamy.unitydebugmenu/Runtime/DebugMenu.Window.cs:225-231 | An open window adds the pending scroll to its offset and clears it; a closed window is unchanged. |
| Windows.UpdateWindowIdempotent | Packages/com.daitokuamy.unitydebugmenu/Runtime/DebugMenu.Window.cs:225-231 | A second update in the same frame changes nothing. |
| Windows.Resize | Packages/com.daitokuamy.unitydebugmenu/Runtime/DebugMenu.Window.cs:314-322 | Resizing never goes below the minimum size, grows at least by the pointer's movement, and keeps the position. |
| Windows.ResizeFollowsPointer | Packages/com.daitokuamy.unitydebugmenu/Runtime/DebugMenu.Window.cs:314-322 | Above the minimum size the lower right corner follows the pointer exactly. |
| Windows.ResizeArea | Packages/com.daitokuamy.unitydebugmenu/Runtime/DebugMenu.Window.cs:271-272 | The resize grip starts 24 units in from the window's width and height. |
| Windows.ScrollArea | Packages/com.daitokuamy.unitydebugmenu/Runtime/DebugMenu.Window.cs:276-277 | The scroll area is built from the window's min corner with the max corner passed as its size. |
| Windows.Press | Packages/com.daitokuamy.unitydebugmenu/Runtime/DebugMenu.Window.cs:270-287 | A press latches resize when on the grip, else recomputes scroll, and records the pointer; a release clears both flags; other events change nothing. |
| Windows.OnWindow | Packages/com.daitokuamy.unitydebugmenu/Runtime/DebugMenu.Window.cs:236-309 | The close button closes. Dispatch goes to resize, then scroll, then drag, and mouse-up always ends in a drag. Only a resize moves the rectangle, only a scroll adds to the pending scroll, and presses and drags are consumed. |
| Windows.DragScrollTelescopes | Packages/com.daitokuamy.unitydebugmenu/Runtime/DebugMenu.Window.cs:294-297 | During a scroll, a run of drags adds only the total vertical travel, negated, to the pending scroll and ends with the last pointer position recorded. |
| Gestures.KeyboardCheck | Packages/com.daitokuamy.unitydebugmenu/Runtime/DefaultDebugMenuHandler.cs:78-96 | The combination fires exactly when each required modifier is held on either side and the key went down this frame. |
| Gestures.KeyboardMonotone | Packages/com.daitokuamy.unitydebugmenu/Runtime/DefaultDebugMenuHandler.cs:78-96 | Holding more keys never blocks the combination. |
| Gestures.UnrequiredModifiersIgnored | Packages/com.daitokuamy.unitydebugmenu/Runtime/DefaultDebugMenuHandler.cs:78-96 | For each modifier the combination does not require, holding it or not makes no difference, whatever the other modifiers are. A combination with no modifiers depends on the key alone. |
| Gestures.TouchStep | Packages/com.daitokuamy.unitydebugmenu/Runtime/DefaultDebugMenuHandler.cs:99-112 | Too few fingers reset the timer and never fire. An ordinary hold adds the frame time, and a fast hold adds it scaled by touchTime / fastTouchTime. It fires exactly when the timer crosses touchTime. |
| Gestures.TouchFiresOncePerHold | Packages/com.daitokuamy.unitydebugmenu/Runtime/DefaultDebugMenuHandler.cs:101-112 | While the fingers stay down with non-negative frame times, the timer only grows and the handler fires at most once: exactly when the timer passes touchTime. |
| Gestures.LiftResets | Packages/com.daitokuamy.unitydebugmenu/Runtime/DefaultDebugMenuHandler.cs:101-105 | Lifting below touchCount fingers makes the next hold start from zero. |
| Gestures.FastHoldRate | Packages/com.daitokuamy.unitydebugmenu/Runtime/DefaultDebugMenuHandler.cs:106-109 | On a fast hold the timer advances by the scaled frame times. |
| Gestures.OrdinaryHoldRate | Packages/com.daitokuamy.unitydebugmenu/Runtime/DefaultDebugMenuHandler.cs:111 | On an ordinary hold the timer advances with the clock. |
| Gestures.CheckVisible | Packages/com.daitokuamy.unitydebugmenu/Runtime/DefaultDebugMenuHandler.cs:77-113 | Desktop builds use the stateless keyboard check and leave the timer alone; other builds run one frame of the hold timer. |
| Selectors.CsRem | Packages/com.daitokuamy.unitydebugmenu/Runtime/DebugMenuUtil.cs:227 | C#'s % takes the sign of the dividend, and its magnitude is below the divisor's. |
| Selectors.Direction | Packages/com.daitokuamy.unitydebugmenu/Runtime/DebugMenuUtil.cs:211-221 | The step is -1, 0 or +1, and zero exactly when neither arrow was pressed. |
| Selectors.Cycle | Packages/com.daitokuamy.unitydebugmenu/Runtime/DebugMenuUtil.cs:226-228 | (index + diff + n) % n lies in [0, n) and wraps past either end; from position -1 a back step lands on n - 2. |
| Selectors.ArrowOrderField | Packages/com.daitokuamy.unitydebugmenu/Runtime/DebugMenuUtil.cs:208-233 | An index outside the labels throws IndexOutOfRange. Otherwise the result lies among the labels, is unchanged without a press, and moves one step with wrap-around; ">" wins if both are pressed. |
| Selectors.ArrowStepsCancel | Packages/com.daitokuamy.unitydebugmenu/Runtime/DebugMenuUtil.cs:211-230 | A "<" step followed by a ">" step lands back on the starting label, and vice versa. |
| Selectors.ButtonOrderField | Packages/com.daitokuamy.unitydebugmenu/Runtime/DebugMenuUtil.cs:331-343 | An index outside the labels throws IndexOutOfRange. Otherwise a press moves to the next label, the last wrapping to the first. |
| Selectors.PressesAdvance | Packages/com.daitokuamy.unitydebugmenu/Runtime/DebugMenuUtil.cs:334-336 | Up to n presses advance the index by their number, wrapping once past the last label. |
| Selectors.PressesCycle | Packages/com.daitokuamy.unitydebugmenu/Runtime/DebugMenuUtil.cs:334-336 | n presses come back to the starting label. |
| Selectors.Candidates | Packages/com.daitokuamy.unitydebugmenu/Runtime/DebugMenuUtil.cs:141-143 | The offered values are exactly the enum's values not in the ignore collection, with none ignored when it is null. |
| Selectors.IndexOf | Packages/com.daitokuamy.unitydebugmenu/Runtime/DebugMenuUtil.cs:144 | List.IndexOf gives the first position of the value, or -1 when it is absent. |
| Selectors.EnumArrowOrderField | Packages/com.daitokuamy.unitydebugmenu/Runtime/DebugMenuUtil.cs:125-156 | Without a press the value is kept. A step yields an offered value, or throws DivideByZero when nothing is offered. |
| Selectors.EnumButtonOrderField | Packages/com.daitokuamy.unitydebugmenu/Runtime/DebugMenuUtil.cs:257-276 | Without a press the value is kept. A press yields an offered value, or throws DivideByZero when nothing is offered. |
| Selectors.EnumStepNeighbours | Packages/com.daitokuamy.unitydebugmenu/Runtime/DebugMenuUtil.cs:141-151 | Stepping an offered value moves to its neighbour in the candidate order, wrapping at both ends; the button steps forward. |
| Selectors.EnumStepFromUnoffered | Packages/com.daitokuamy.unitydebugmenu/Runtime/DebugMenuUtil.cs:144-150 | A value that is not offered steps forward to the first candidate and back to the second-to-last one. |
| Selectors.EnumStepsCancel | Packages/com.daitokuamy.unitydebugmenu/Runtime/DebugMenuUtil.cs:141-151 | With distinct candidates, a "<" step and a ">" step cancel. |
| Selectors.ToggleButton | Packages/com.daitokuamy.unitydebugmenu/Runtime/DebugMenuUtil.cs:672-683 | The flag flips exactly when pressed, and the label shows onLabel exactly when the flag was set. |
| Selectors.ToggleTwice | Packages/com.daitokuamy.unitydebugmenu/Runtime/DebugMenuUtil.cs:672-683 | Two presses restore the flag and the label. |
| Scopes.OpenWidthScope | Packages/com.daitokuamy.unitydebugmenu/Runtime/DebugMenuUtil.cs:17-20 | A new scope sets the width and remembers the previous one. |
| Scopes.DisposeWidthScope | Packages/com.daitokuamy.unitydebugmenu/Runtime/DebugMenuUtil.cs:22-24 | Disposing puts back the remembered width, whatever the current one is. |
| Scopes.NestedScopesRestore | Packages/com.daitokuamy.unitydebugmenu/Runtime/DebugMenuUtil.cs:14-25 | Scopes disposed in reverse order of opening restore the width from before the first. |
| Scopes.OutOfOrderDisposeLeaksWidth | Packages/com.daitokuamy.unitydebugmenu/Runtime/DebugMenuUtil.cs:14-25 | Disposing two nested scopes outer first leaves the outer scope's width in place. |
| Scopes.ChangeCheckSilences | Packages/com.daitokuamy.unitydebugmenu/Runtime/DebugMenuUtil.cs:30-42 | After disposal, or when the GUI had already changed at creation, no change is reported; otherwise a change is reported exactly when the GUI changed. |
| Scopes.LabelValueField | Packages/com.daitokuamy.unitydebugmenu/Runtime/DebugMenuUtil.cs:90-102 | Without a callback nothing is drawn and the default comes back. Otherwise the callback's value comes back with the label at the current width. |
| Scopes.FieldWidthFollowsScope | Packages/com.daitokuamy.unitydebugmenu/Runtime/DebugMenuUtil.cs:59-71 | A field inside a width scope uses the scope's width; one drawn after disposal uses the width from before. |
| Layout.FillRow | Packages/com.daitokuamy.unitydebugmenu/Runtime/DebugMenu.Item.cs:104-116 | The inner loop extends a row while the next button fits. It stops at the end of the list or before the first button that would overflow. |
| Layout.PackRows | Packages/com.daitokuamy.unitydebugmenu/Runtime/DebugMenu.Item.cs:100-120 | As written, the layout finishes exactly when every button fits on a row of its own. Its rows then cover the buttons in order, each fits, and each ends only before an overflow. Otherwise it makes no progress at the first button too wide. |
| Layout.PackRowsWrapped | Packages/com.daitokuamy.unitydebugmenu/Runtime/DebugMenu.Item.cs:100-120 | The corrected layout always finishes. A row overflows only when it is a single button too wide to fit, and when every button fits it gives the same greedy rows. |
| Layout.WrappedIsGreedy | Packages/com.daitokuamy.unitydebugmenu/Runtime/DebugMenu.Item.cs:100-120 | When every button fits, the corrected rows meet the original's greedy rule. |

## Left out

- Drawing is not modelled: IMGUI layout, skins, styles, colours, font sizes and labels.
  `GUI.DragWindow` is taken as opaque: a drag leaves the window's state as it was.
- `CalcScreenRect`, `DrawScale`, the safe area and the status-bar offset are left out. The
  screen rectangle is a parameter of every operation that reads it.
- Float rounding is not modelled: geometry and time are exact reals. The hold timer's edge
  test assumes exact arithmetic.
- Device polling (`Input`, `Keyboard.current`, `Touchscreen.current`) is not modelled. Held
  and pressed keys and the touch count are inputs. Only the legacy-input branch of
  `CheckVisible` is modelled (`DefaultDebugMenuHandler.cs:77-113`). The Input System branch
  (`DefaultDebugMenuHandler.cs:30-75`) differs from it in three ways that the model does
  not capture:
  - On a build with no touchscreen it returns false and leaves the hold timer as it was
    (lines 56-58). The legacy branch sees zero touches there and resets the timer to 0.
  - It counts only touches that are in progress (line 61), where the legacy branch takes
    `Input.touchCount` (line 99).
  - It reads `Keyboard.current` without a null check (line 32), so with no keyboard it
    throws where the legacy branch reads every key as up.
- The singleton, `DontDestroyOnLoad`, the `Application.isPlaying` and `s_instance` guards,
  and the `Conditional` and `USE_UNITY_DEBUG_MENU` gating are left out. The model is the
  controller while active.
- `JudgeOpenWindow` is left out. It is a convenience wrapper over `SetVisible` and window
  closing, outside the registration, navigation and window core.
- Only the default handler is modelled. `SetHandler`, `SetDefaultView` and the header and
  footer window constructors, which differ only in draw callbacks, are left out.
- Callbacks are handler values, and their effects are recorded in a trace.
  - A custom callback is opaque: it cannot call back into the menu.
  - Re-entrant callbacks, such as one that removes items while it runs, are not modelled.
- The handler's configuration is a record holding the key combination and the touch
  tunables. The source reads `editorMenuOpen`, which `DebugMenuConfig` does not declare.
  It also constructs `DefaultDebugMenuHandler` without the config its constructor needs.
- Window ids are unbounded naturals: a wrap-around of the 32-bit static counter is not
  modelled. The counter and the default-rectangle cache are static in the source; here
  they are per menu, which is the same for the one menu instance.
- Gestures.TouchStep and every member reading the configuration require
  fastTouchTime != 0, because the source divides by it.
- Controller.Step and Controller.ApplyValid use the corrected removal
  (`Controller.RemoveItemClosing`). The rule as written can leave the open item detached
  (see Findings), and then the invariant cannot hold.
- Controller.PressChild assumes the row layout finishes. The controller does not refer to
  `Layout`. With the layout as written, one child whose width + 18 exceeds the screen width
  stops the frame from finishing (see Findings), and then no child button can be pressed.
- Buttons' measured widths (`CalcSize`) are an input sequence.
- The slider, text-field and filter helpers of `DebugMenuUtil` are not modelled.
- Editor persistence and define-symbol plumbing in `DebugMenuConfig` are not modelled.
  Only its default constants are.

## Findings

| source | as written | input that shows it | evidently intended | confidence | as-written member | corrected member |
|---|---|---|---|---|---|---|
| Packages/com.daitokuamy.unitydebugmenu/Runtime/DebugMenu.Item.cs:100-120 | A button whose width plus 18 exceeds the screen width breaks out of the inner loop before `i++`, so the outer `for` repeats forever. | One child whose measured width + 18 > screen width. | A button too wide for the screen gets a row of its own, and the layout finishes. | not executed | Layout.PackRows | Layout.PackRowsWrapped |
| Packages/com.daitokuamy.unitydebugmenu/Runtime/DebugMenu.cs:330-352 | The removal loop calls `CloseItem` only on the removed items. An open item strictly below the one removed is not reset, and it stays open while detached from the tree. | Register a/b/c, select "a/b", then `RemoveItem("a")`: a/b stays open. | Reset the open item to the root when it lies at or below the topmost removed item. | not executed | Controller.RemoveItemStrandsCursor | Controller.ClosingCursorAttached |
