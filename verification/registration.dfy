/**
 * DebugMenu.PrivateAddItem: registering a callback pair under a '/'-separated path.
 * An existing path gains the callbacks; otherwise the unmatched suffix of the path is
 * created as a chain of new items hanging off the deepest item the search reached.
 */
module Registration {
  import opened Common
  import opened Items
  import Paths

  /** `event += handler`: a null handler leaves the invocation list as it is. */
  function Subscribed(hs: seq<Handler>, h: Option<Handler>): (r: seq<Handler>)
    ensures h.None? ==> r == hs
    ensures h.Some? ==> |r| == |hs| + 1 && r[..|hs|] == hs && r[|hs|] == h.value
  {
    if h.Some? then hs + [h.value] else hs
  }

  /** Add the callbacks to an item's two events. */
  function Subscribe(t: Tree, id: NodeId, onExecute: Option<Handler>, onDispose: Option<Handler>): (t2: Tree)
    requires id in t.items
    ensures t2.nextId == t.nextId
    ensures forall x :: x in t2.items <==> x in t.items
    ensures forall x | x in t.items && x != id :: t2.items[x] == t.items[x]
    ensures t2.items[id] == t.items[id].(onExecute := Subscribed(t.items[id].onExecute, onExecute),
                                         onDispose := Subscribed(t.items[id].onDispose, onDispose))
  {
    var it := t.items[id];
    Tree(t.items[id := it.(onExecute := Subscribed(it.onExecute, onExecute),
                           onDispose := Subscribed(it.onDispose, onDispose))], t.nextId)
  }

  /** Subscribing touches no name, Parent or Children, so the tree stays well formed. */
  lemma SubscribeShape(t: Tree, id: NodeId, onExecute: Option<Handler>, onDispose: Option<Handler>)
    requires WellFormed(t) && id in t.items
    ensures var t2 := Subscribe(t, id, onExecute, onDispose);
      && WellFormed(t2) && SameLinks(t, t2) && KeepsChildren(t, t2)
      && (UniqueSiblings(t) ==> UniqueSiblings(t2))
  {
    SameShape(t, Subscribe(t, id, onExecute, onDispose));
  }

  /** A tree that differs only in callbacks is as well formed as the original. */
  lemma SameShape(t: Tree, t2: Tree)
    requires WellFormed(t) && (forall x :: x in t2.items <==> x in t.items) && t2.nextId == t.nextId
    requires forall x | x in t.items :: t2.items[x].parent == t.items[x].parent
                                        && t2.items[x].children == t.items[x].children
                                        && t2.items[x].name == t.items[x].name
    ensures WellFormed(t2) && SameLinks(t, t2) && KeepsChildren(t, t2)
    ensures UniqueSiblings(t) ==> UniqueSiblings(t2)
  {
    forall x | x in t2.items ensures ChildrenOk(t2, x) {
      assert ChildrenOk(t, x);
    }
    forall x | x in t2.items && x != Root ensures ParentOk(t2, x) {
      assert ParentOk(t, x);
    }
    if UniqueSiblings(t) {
      forall x | x in t2.items ensures assert ChildrenOk(t2, x); DistinctNames(t2, t2.items[x].children) {
        assert ChildrenOk(t, x);
        assert DistinctNames(t, t.items[x].children);
      }
    }
  }

  /** What `new Item(name, base)` followed by `base.Children.Add(child)` builds, pointwise. */
  ghost predicate Appended(t: Tree, base: NodeId, name: string, t2: Tree)
    requires base in t.items
  {
    && t2.nextId == t.nextId + 1
    && (forall x :: x in t2.items <==> x in t.items || x == t.nextId)
    && t2.items[t.nextId] == Item(name, Some(base), [], [], [])
    && t2.items[base] == t.items[base].(children := t.items[base].children + [t.nextId])
    && (forall x | x in t.items && x != base && x != t.nextId :: t2.items[x] == t.items[x])
  }

  /** `new Item(name, base)` takes the next id and is appended to `base`'s children. */
  function AppendChild(t: Tree, base: NodeId, name: string): (t2: Tree)
    requires base in t.items && base < t.nextId
    ensures Appended(t, base, name, t2)
  {
    var id := t.nextId;
    var b := t.items[base];
    Tree(t.items[base := b.(children := b.children + [id])][id := Item(name, Some(base), [], [], [])], id + 1)
  }

  /** Appending keeps the tree well formed and changes no existing link. */
  lemma AppendChildFacts(t: Tree, base: NodeId, name: string, t2: Tree)
    requires WellFormed(t) && base in t.items && Appended(t, base, name, t2)
    ensures WellFormed(t2) && SameLinks(t, t2) && KeepsChildren(t, t2)
  {
    AppendChildParents(t, base, name, t2);
    forall x | x in t2.items ensures ChildrenOk(t2, x) {
      AppendChildChildrenOk(t, base, name, t2, x);
    }
  }

  lemma AppendChildParents(t: Tree, base: NodeId, name: string, t2: Tree)
    requires WellFormed(t) && base in t.items && Appended(t, base, name, t2)
    ensures SameLinks(t, t2) && KeepsChildren(t, t2)
    ensures forall x | x in t2.items :: x < t2.nextId
    ensures forall x | x in t2.items && x != Root :: ParentOk(t2, x)
  {
    var id := t.nextId;
    forall x | x in t2.items && x != Root ensures ParentOk(t2, x) {
      if x != id {
        assert ParentOk(t, x);
      }
    }
  }

  lemma AppendChildChildrenOk(t: Tree, base: NodeId, name: string, t2: Tree, x: NodeId)
    requires WellFormed(t) && base in t.items && Appended(t, base, name, t2)
    requires x in t2.items
    ensures ChildrenOk(t2, x)
  {
    var id := t.nextId;
    if x != id {
      assert ChildrenOk(t, x);
      var cs := t.items[x].children;
      forall i | 0 <= i < |cs| ensures cs[i] in t.items && cs[i] != id && t2.items[cs[i]].parent == Some(x) {
        assert cs[i] in t.items;
      }
      if x == base {
        var cs2 := t2.items[x].children;
        assert cs2 == cs + [id];
        forall i, j | 0 <= i < j < |cs2| ensures cs2[i] != cs2[j] {
          if j < |cs| {
            assert cs2[i] == cs[i] && cs2[j] == cs[j];
          } else {
            assert cs2[i] == cs[i];
          }
        }
      }
    }
  }

  /** Appending a child whose name no sibling has keeps sibling names unique. */
  lemma AppendChildUnique(t: Tree, base: NodeId, name: string, t2: Tree)
    requires WellFormed(t) && base in t.items && Appended(t, base, name, t2) && WellFormed(t2)
    requires UniqueSiblings(t) && NoChildNamed(t, base, name)
    ensures UniqueSiblings(t2)
  {
    var id := t.nextId;
    forall x | x in t2.items ensures assert ChildrenOk(t2, x); DistinctNames(t2, t2.items[x].children) {
      if x != id {
        assert ChildrenOk(t, x);
        assert DistinctNames(t, t.items[x].children);
        var cs := t.items[x].children;
        assert forall i | 0 <= i < |cs| :: cs[i] in t.items && cs[i] != id && t2.items[cs[i]].name == t.items[cs[i]].name;
        if x == base {
          var cs2 := t2.items[x].children;
          assert cs2 == cs + [id];
          forall i, j | 0 <= i < j < |cs2| ensures t2.items[cs2[i]].name != t2.items[cs2[j]].name {
            if j < |cs| {
              assert cs2[i] == cs[i] && cs2[j] == cs[j];
            } else {
              assert cs2[i] == cs[i] && cs2[j] == id;
              assert cs[i] in cs;
            }
          }
        }
      }
    }
  }

  /**
   * The loop of PrivateAddItem from segment i on: each remaining segment becomes a new
   * item appended to the previous one, and the last one receives the callbacks.
   */
  function AddChain(t: Tree, base: NodeId, segs: seq<string>, i: nat,
                    onExecute: Option<Handler>, onDispose: Option<Handler>): (t2: Tree)
    requires base in t.items && base < t.nextId && i < |segs|
    ensures t2.nextId == t.nextId + (|segs| - i)
    decreases |segs| - i
  {
    var t1 := AppendChild(t, base, segs[i]);
    if i == |segs| - 1 then Subscribe(t1, t.nextId, onExecute, onDispose)
    else AddChain(t1, t.nextId, segs, i + 1, onExecute, onDispose)
  }

  /** The chain keeps the tree well formed and changes no existing link. */
  lemma {:induction false} AddChainWellFormed(t: Tree, base: NodeId, segs: seq<string>, i: nat,
                                              onExecute: Option<Handler>, onDispose: Option<Handler>)
    requires WellFormed(t) && base in t.items && i < |segs|
    ensures var t2 := AddChain(t, base, segs, i, onExecute, onDispose);
      WellFormed(t2) && SameLinks(t, t2) && KeepsChildren(t, t2)
    decreases |segs| - i
  {
    var id := t.nextId;
    var t1 := AppendChild(t, base, segs[i]);
    AppendChildFacts(t, base, segs[i], t1);
    if i == |segs| - 1 {
      var t2 := Subscribe(t1, id, onExecute, onDispose);
      assert AddChain(t, base, segs, i, onExecute, onDispose) == t2;
      SubscribeShape(t1, id, onExecute, onDispose);
      KeepsTrans(t, t1, t2);
    } else {
      var t2 := AddChain(t1, id, segs, i + 1, onExecute, onDispose);
      assert AddChain(t, base, segs, i, onExecute, onDispose) == t2;
      AddChainWellFormed(t1, id, segs, i + 1, onExecute, onDispose);
      KeepsTrans(t, t1, t2);
    }
  }

  /** AddChain adds exactly the ids from t.nextId up to the new counter. */
  lemma {:induction false} AddChainKeys(t: Tree, base: NodeId, segs: seq<string>, i: nat,
                                        onExecute: Option<Handler>, onDispose: Option<Handler>)
    requires base in t.items && base < t.nextId && i < |segs|
    ensures var t2 := AddChain(t, base, segs, i, onExecute, onDispose);
      forall x :: x in t2.items <==> x in t.items || t.nextId <= x < t2.nextId
    decreases |segs| - i
  {
    var id := t.nextId;
    var t1 := AppendChild(t, base, segs[i]);
    if i < |segs| - 1 {
      AddChainKeys(t1, id, segs, i + 1, onExecute, onDispose);
      assert AddChain(t, base, segs, i, onExecute, onDispose) == AddChain(t1, id, segs, i + 1, onExecute, onDispose);
    } else {
      assert AddChain(t, base, segs, i, onExecute, onDispose) == Subscribe(t1, id, onExecute, onDispose);
    }
  }

  /** Items that existed before are untouched, except that `base` gains the chain's head. */
  lemma {:induction false} AddChainOld(t: Tree, base: NodeId, segs: seq<string>, i: nat,
                                       onExecute: Option<Handler>, onDispose: Option<Handler>, x: NodeId)
    requires base in t.items && base < t.nextId && i < |segs| && x in t.items && x < t.nextId
    ensures var t2 := AddChain(t, base, segs, i, onExecute, onDispose);
      && x in t2.items
      && t2.items[x] == if x == base then t.items[base].(children := t.items[base].children + [t.nextId])
                        else t.items[x]
    decreases |segs| - i
  {
    var id := t.nextId;
    var t1 := AppendChild(t, base, segs[i]);
    if i < |segs| - 1 {
      AddChainOld(t1, id, segs, i + 1, onExecute, onDispose, x);
      assert AddChain(t, base, segs, i, onExecute, onDispose) == AddChain(t1, id, segs, i + 1, onExecute, onDispose);
    } else {
      assert AddChain(t, base, segs, i, onExecute, onDispose) == Subscribe(t1, id, onExecute, onDispose);
    }
  }

  /** The new items: one per remaining segment, each the only child of the one before. */
  lemma {:induction false} AddChainNew(t: Tree, base: NodeId, segs: seq<string>, i: nat,
                                       onExecute: Option<Handler>, onDispose: Option<Handler>, j: NodeId)
    requires base in t.items && base < t.nextId && i < |segs|
    requires t.nextId <= j < t.nextId + (|segs| - i)
    ensures var t2 := AddChain(t, base, segs, i, onExecute, onDispose);
      && j in t2.items
      && t2.items[j] == Item(segs[i + (j - t.nextId)],
                             Some(if j == t.nextId then base else j - 1),
                             if j + 1 < t2.nextId then [j + 1] else [],
                             if j + 1 == t2.nextId then Subscribed([], onExecute) else [],
                             if j + 1 == t2.nextId then Subscribed([], onDispose) else [])
    decreases |segs| - i
  {
    var id := t.nextId;
    var t1 := AppendChild(t, base, segs[i]);
    if i < |segs| - 1 {
      var t2 := AddChain(t1, id, segs, i + 1, onExecute, onDispose);
      assert AddChain(t, base, segs, i, onExecute, onDispose) == t2;
      if j == id {
        AddChainOld(t1, id, segs, i + 1, onExecute, onDispose, id);
        assert t1.items[id].children + [id + 1] == [id + 1];
      } else {
        AddChainNew(t1, id, segs, i + 1, onExecute, onDispose, j);
      }
    } else {
      var t2 := Subscribe(t1, id, onExecute, onDispose);
      assert AddChain(t, base, segs, i, onExecute, onDispose) == t2;
    }
  }

  /** The chain's last item lies below `base` along the remaining segments. */
  lemma AddChainReaches(t: Tree, base: NodeId, segs: seq<string>, i: nat,
                        onExecute: Option<Handler>, onDispose: Option<Handler>)
    requires WellFormed(t) && base in t.items && i < |segs|
    ensures var t2 := AddChain(t, base, segs, i, onExecute, onDispose);
      && WellFormed(t2) && t2.nextId - 1 in t2.items
      && Names(t2, t2.nextId - 1) == Names(t, base) + segs[i..]
      && (Attached(t, base) ==> Attached(t2, t2.nextId - 1))
  {
    AddChainNames(t, base, segs, i, onExecute, onDispose);
    AddChainAttached(t, base, segs, i, onExecute, onDispose);
  }

  /** The chain's last item's name path is `base`'s followed by the remaining segments. */
  lemma {:induction false} AddChainNames(t: Tree, base: NodeId, segs: seq<string>, i: nat,
                                         onExecute: Option<Handler>, onDispose: Option<Handler>)
    requires WellFormed(t) && base in t.items && i < |segs|
    ensures var t2 := AddChain(t, base, segs, i, onExecute, onDispose);
      && WellFormed(t2) && t2.nextId - 1 in t2.items
      && Names(t2, t2.nextId - 1) == Names(t, base) + segs[i..]
    decreases |segs| - i
  {
    var id := t.nextId;
    var t1 := AppendChild(t, base, segs[i]);
    AppendChildReaches(t, base, segs[i]);
    SnocDrop(Names(t, base), segs, i);
    if i == |segs| - 1 {
      var t2 := Subscribe(t1, id, onExecute, onDispose);
      assert AddChain(t, base, segs, i, onExecute, onDispose) == t2;
      SubscribeShape(t1, id, onExecute, onDispose);
      NamesStable(t1, t2, id);
    } else {
      var t2 := AddChain(t1, id, segs, i + 1, onExecute, onDispose);
      assert AddChain(t, base, segs, i, onExecute, onDispose) == t2;
      AddChainNames(t1, id, segs, i + 1, onExecute, onDispose);
    }
  }

  /** The chain's last item is attached when `base` is. */
  lemma {:induction false} AddChainAttached(t: Tree, base: NodeId, segs: seq<string>, i: nat,
                                            onExecute: Option<Handler>, onDispose: Option<Handler>)
    requires WellFormed(t) && base in t.items && i < |segs|
    ensures var t2 := AddChain(t, base, segs, i, onExecute, onDispose);
      && WellFormed(t2) && t2.nextId - 1 in t2.items
      && (Attached(t, base) ==> Attached(t2, t2.nextId - 1))
    decreases |segs| - i
  {
    var id := t.nextId;
    var t1 := AppendChild(t, base, segs[i]);
    AppendChildReaches(t, base, segs[i]);
    if i == |segs| - 1 {
      var t2 := Subscribe(t1, id, onExecute, onDispose);
      assert AddChain(t, base, segs, i, onExecute, onDispose) == t2;
      SubscribeShape(t1, id, onExecute, onDispose);
      AttachedStable(t1, t2, id);
    } else {
      var t2 := AddChain(t1, id, segs, i + 1, onExecute, onDispose);
      assert AddChain(t, base, segs, i, onExecute, onDispose) == t2;
      AddChainAttached(t1, id, segs, i + 1, onExecute, onDispose);
    }
  }

  /** The appended item's name path extends its parent's, and it is attached when the parent is. */
  lemma AppendChildReaches(t: Tree, base: NodeId, name: string)
    requires WellFormed(t) && base in t.items
    ensures var t1 := AppendChild(t, base, name);
      && WellFormed(t1) && t.nextId in t1.items
      && Names(t1, t.nextId) == Names(t, base) + [name]
      && (Attached(t, base) ==> Attached(t1, t.nextId))
  {
    var t1 := AppendChild(t, base, name);
    AppendChildFacts(t, base, name, t1);
    assert ParentOk(t1, t.nextId);
    NamesStable(t, t1, base);
    AttachedStable(t, t1, base);
  }

  /** A chain hung under an item with no child named segs[i] keeps sibling names unique. */
  lemma {:induction false} AddChainUnique(t: Tree, base: NodeId, segs: seq<string>, i: nat,
                                          onExecute: Option<Handler>, onDispose: Option<Handler>)
    requires WellFormed(t) && base in t.items && i < |segs| && UniqueSiblings(t)
    requires NoChildNamed(t, base, segs[i])
    ensures var t2 := AddChain(t, base, segs, i, onExecute, onDispose);
      WellFormed(t2) && UniqueSiblings(t2)
    decreases |segs| - i
  {
    AddChainWellFormed(t, base, segs, i, onExecute, onDispose);
    var id := t.nextId;
    var t1 := AppendChild(t, base, segs[i]);
    AppendChildFacts(t, base, segs[i], t1);
    AppendChildUnique(t, base, segs[i], t1);
    if i < |segs| - 1 {
      AddChainUnique(t1, id, segs, i + 1, onExecute, onDispose);
      assert AddChain(t, base, segs, i, onExecute, onDispose) == AddChain(t1, id, segs, i + 1, onExecute, onDispose);
    } else {
      SubscribeShape(t1, id, onExecute, onDispose);
      assert AddChain(t, base, segs, i, onExecute, onDispose) == Subscribe(t1, id, onExecute, onDispose);
    }
  }

  /**
   * DebugMenu.PrivateAddItem: an existing path gets the callbacks added to its item;
   * otherwise the unmatched suffix is created below the deepest matched item.
   */
  function AddItem(t: Tree, path: string, onExecute: Option<Handler>, onDispose: Option<Handler>): (t2: Tree)
    requires WellFormed(t)
    ensures WellFormed(t2)
  {
    var segs := Paths.Split(path);
    var r := Find(t, segs);
    if r.found then
      SubscribeShape(t, r.last, onExecute, onDispose);
      Subscribe(t, r.last, onExecute, onDispose)
    else
      AddChainWellFormed(t, r.last, segs, r.lastIndex, onExecute, onDispose);
      AddChain(t, r.last, segs, r.lastIndex, onExecute, onDispose)
  }

  /** Registration only adds: no name, Parent reference or child is lost. */
  lemma AddItemGrows(t: Tree, path: string, onExecute: Option<Handler>, onDispose: Option<Handler>)
    requires WellFormed(t)
    ensures SameLinks(t, AddItem(t, path, onExecute, onDispose))
    ensures KeepsChildren(t, AddItem(t, path, onExecute, onDispose))
  {
    var segs := Paths.Split(path);
    var r := Find(t, segs);
    if r.found {
      SubscribeShape(t, r.last, onExecute, onDispose);
    } else {
      AddChainWellFormed(t, r.last, segs, r.lastIndex, onExecute, onDispose);
    }
  }

  /** Registration never gives two siblings the same name. */
  lemma AddItemUnique(t: Tree, path: string, onExecute: Option<Handler>, onDispose: Option<Handler>)
    requires WellFormed(t) && UniqueSiblings(t)
    ensures UniqueSiblings(AddItem(t, path, onExecute, onDispose))
  {
    var segs := Paths.Split(path);
    var r := Find(t, segs);
    if r.found {
      SubscribeShape(t, r.last, onExecute, onDispose);
    } else {
      AddChainUnique(t, r.last, segs, r.lastIndex, onExecute, onDispose);
    }
  }

  /**
   * Registering an existing path keeps every item's name, parent and children and every
   * other item's callbacks; it only adds the given callbacks to the item found.
   */
  lemma AddItemExisting(t: Tree, path: string, onExecute: Option<Handler>, onDispose: Option<Handler>)
    requires WellFormed(t) && Find(t, Paths.Split(path)).found
    ensures var n := Find(t, Paths.Split(path)).last;
            var t2 := AddItem(t, path, onExecute, onDispose);
      && t2.nextId == t.nextId && (forall x :: x in t2.items <==> x in t.items)
      && (forall x | x in t.items :: t2.items[x].name == t.items[x].name
                                     && t2.items[x].parent == t.items[x].parent
                                     && t2.items[x].children == t.items[x].children)
      && (forall x | x in t.items && x != n :: t2.items[x] == t.items[x])
      && t2.items[n].onExecute == Subscribed(t.items[n].onExecute, onExecute)
      && t2.items[n].onDispose == Subscribed(t.items[n].onDispose, onDispose)
      && Find(t2, Paths.Split(path)) == Find(t, Paths.Split(path))
  {
    var segs := Paths.Split(path);
    var t2 := AddItem(t, path, onExecute, onDispose);
    FindShapeOnly(t, t2, Root, segs, 0);
  }

  /** The search reads only names and children lists. */
  lemma {:induction false} FindShapeOnly(t: Tree, t2: Tree, id: NodeId, segs: seq<string>, k: nat)
    requires WellFormed(t) && WellFormed(t2) && id in t.items && k <= |segs|
    requires forall x :: x in t2.items <==> x in t.items
    requires forall x | x in t.items :: t2.items[x].name == t.items[x].name
                                        && t2.items[x].children == t.items[x].children
    ensures FindFrom(t2, id, segs, k) == FindFrom(t, id, segs, k)
    decreases |segs| - k
  {
    if k < |segs| {
      var cs := t.items[id].children;
      assert ChildrenOk(t, id) && ChildrenOk(t2, id);
      FirstNamedShapeOnly(t, t2, cs, segs[k]);
      var i := FirstNamed(t, cs, segs[k]);
      if i < |cs| {
        FindShapeOnly(t, t2, cs[i], segs, k + 1);
      }
    }
  }

  lemma {:induction false} FirstNamedShapeOnly(t: Tree, t2: Tree, cs: seq<NodeId>, name: string)
    requires forall i | 0 <= i < |cs| :: cs[i] in t.items && cs[i] in t2.items
                                         && t2.items[cs[i]].name == t.items[cs[i]].name
    ensures FirstNamed(t2, cs, name) == FirstNamed(t, cs, name)
    decreases |cs|
  {
    if |cs| > 0 {
      FirstNamedShapeOnly(t, t2, cs[1..], name);
    }
  }

  /** The whole chain at once: new ids, untouched old items, and the new items' contents. */
  lemma AddChainShape(t: Tree, base: NodeId, segs: seq<string>, i: nat,
                      onExecute: Option<Handler>, onDispose: Option<Handler>)
    requires base in t.items && i < |segs| && forall x | x in t.items :: x < t.nextId
    ensures var t2 := AddChain(t, base, segs, i, onExecute, onDispose);
      && (forall x :: x in t2.items <==> x in t.items || t.nextId <= x < t2.nextId)
      && (forall x | x in t.items && x != base :: t2.items[x] == t.items[x])
      && t2.items[base] == t.items[base].(children := t.items[base].children + [t.nextId])
      && (forall j | t.nextId <= j < t2.nextId ::
            t2.items[j] == Item(segs[i + (j - t.nextId)],
                                Some(if j == t.nextId then base else j - 1),
                                if j + 1 < t2.nextId then [j + 1] else [],
                                if j + 1 == t2.nextId then Subscribed([], onExecute) else [],
                                if j + 1 == t2.nextId then Subscribed([], onDispose) else []))
  {
    var t2 := AddChain(t, base, segs, i, onExecute, onDispose);
    AddChainKeys(t, base, segs, i, onExecute, onDispose);
    forall x | x in t.items
      ensures t2.items[x] == if x == base then t.items[base].(children := t.items[base].children + [t.nextId])
                             else t.items[x]
    {
      AddChainOld(t, base, segs, i, onExecute, onDispose, x);
    }
    forall j | t.nextId <= j < t2.nextId
      ensures t2.items[j] == Item(segs[i + (j - t.nextId)],
                                  Some(if j == t.nextId then base else j - 1),
                                  if j + 1 < t2.nextId then [j + 1] else [],
                                  if j + 1 == t2.nextId then Subscribed([], onExecute) else [],
                                  if j + 1 == t2.nextId then Subscribed([], onDispose) else [])
    {
      AddChainNew(t, base, segs, i, onExecute, onDispose, j);
    }
  }

  /**
   * Registering a path that does not resolve hangs the chain of its unmatched segments
   * (shaped as AddChainShape describes) below the deepest item the search matched.
   */
  lemma AddItemNew(t: Tree, path: string, onExecute: Option<Handler>, onDispose: Option<Handler>)
    requires WellFormed(t) && !Find(t, Paths.Split(path)).found
    ensures var segs := Paths.Split(path);
            var r := Find(t, segs);
      && r.lastIndex < |segs| && NoChildNamed(t, r.last, segs[r.lastIndex])
      && AddItem(t, path, onExecute, onDispose) == AddChain(t, r.last, segs, r.lastIndex, onExecute, onDispose)
  {
  }

  /**
   * A chain hung below an attached item whose name path is segs[..i] makes the whole of
   * `segs` resolve to the chain's last item.
   */
  lemma AddChainResolves(t: Tree, base: NodeId, segs: seq<string>, i: nat,
                         onExecute: Option<Handler>, onDispose: Option<Handler>)
    requires WellFormed(t) && UniqueSiblings(t) && base in t.items && i < |segs|
    requires Attached(t, base) && Names(t, base) == segs[..i] && NoChildNamed(t, base, segs[i])
    ensures var t2 := AddChain(t, base, segs, i, onExecute, onDispose);
      && WellFormed(t2) && UniqueSiblings(t2) && t2.nextId - 1 in t2.items
      && Find(t2, segs) == Found(true, t2.nextId - 1, |segs|)
  {
    var t2 := AddChain(t, base, segs, i, onExecute, onDispose);
    AddChainReaches(t, base, segs, i, onExecute, onDispose);
    AddChainUnique(t, base, segs, i, onExecute, onDispose);
    var last := t2.nextId - 1;
    assert segs[..i] + segs[i..] == segs;
    FindComplete(t2, last);
  }

  /**
   * With unique sibling names, a path that does not resolve resolves after registration,
   * to the last item of the new chain, and sibling names stay unique.
   */
  lemma AddItemNewResolves(t: Tree, path: string, onExecute: Option<Handler>, onDispose: Option<Handler>)
    requires WellFormed(t) && UniqueSiblings(t) && !Find(t, Paths.Split(path)).found
    ensures var segs := Paths.Split(path);
            var t2 := AddItem(t, path, onExecute, onDispose);
      && t2.nextId - 1 in t2.items && UniqueSiblings(t2)
      && Find(t2, segs) == Found(true, t2.nextId - 1, |segs|)
  {
    var segs := Paths.Split(path);
    var r := Find(t, segs);
    AddItemNew(t, path, onExecute, onDispose);
    UnmatchedSuffixResolves(t, segs, r, AddItem(t, path, onExecute, onDispose), onExecute, onDispose);
  }

  /** The chain of a search's unmatched segments, hung where the search stopped, makes the segments resolve. */
  lemma UnmatchedSuffixResolves(t: Tree, segs: seq<string>, r: Found, t2: Tree,
                                onExecute: Option<Handler>, onDispose: Option<Handler>)
    requires WellFormed(t) && UniqueSiblings(t) && r == Find(t, segs) && !r.found
    requires r.lastIndex < |segs| && t2 == AddChain(t, r.last, segs, r.lastIndex, onExecute, onDispose)
    ensures WellFormed(t2) && t2.nextId - 1 in t2.items && UniqueSiblings(t2)
    ensures Find(t2, segs) == Found(true, t2.nextId - 1, |segs|)
  {
    FindSound(t, segs);
    AddChainResolves(t, r.last, segs, r.lastIndex, onExecute, onDispose);
  }

  /** Item `id` is a leaf whose callback lists hold exactly the given handlers. */
  predicate NewLeaf(t: Tree, id: NodeId, onExecute: Option<Handler>, onDispose: Option<Handler>)
  {
    && id in t.items && t.items[id].children == []
    && t.items[id].onExecute == Subscribed([], onExecute)
    && t.items[id].onDispose == Subscribed([], onDispose)
  }

  /** The chain's last item is a leaf carrying exactly the registered callbacks. */
  lemma AddChainLast(t: Tree, base: NodeId, segs: seq<string>, i: nat,
                     onExecute: Option<Handler>, onDispose: Option<Handler>)
    requires base in t.items && base < t.nextId && i < |segs|
    ensures var t2 := AddChain(t, base, segs, i, onExecute, onDispose);
      NewLeaf(t2, t2.nextId - 1, onExecute, onDispose)
  {
    var t2 := AddChain(t, base, segs, i, onExecute, onDispose);
    AddChainNew(t, base, segs, i, onExecute, onDispose, t2.nextId - 1);
  }

  /** The item a new path resolves to is a leaf whose callbacks are exactly the ones registered. */
  lemma AddItemNewLeaf(t: Tree, path: string, onExecute: Option<Handler>, onDispose: Option<Handler>)
    requires WellFormed(t) && UniqueSiblings(t) && !Find(t, Paths.Split(path)).found
    ensures var t2 := AddItem(t, path, onExecute, onDispose);
            var f := Find(t2, Paths.Split(path));
      && f.found && f.last in t2.items && t2.items[f.last].children == []
      && t2.items[f.last].onExecute == Subscribed([], onExecute)
      && t2.items[f.last].onDispose == Subscribed([], onDispose)
  {
    AddItemNewResolves(t, path, onExecute, onDispose);
    AddItemNewLast(t, path, onExecute, onDispose);
  }

  /** The newest item after registering a new path is a leaf with the registered callbacks. */
  lemma AddItemNewLast(t: Tree, path: string, onExecute: Option<Handler>, onDispose: Option<Handler>)
    requires WellFormed(t) && !Find(t, Paths.Split(path)).found
    ensures var t2 := AddItem(t, path, onExecute, onDispose);
      NewLeaf(t2, t2.nextId - 1, onExecute, onDispose)
  {
    var segs := Paths.Split(path);
    AddItemNew(t, path, onExecute, onDispose);
    UnmatchedSuffixLeaf(t, segs, Find(t, segs), AddItem(t, path, onExecute, onDispose), onExecute, onDispose);
  }

  /** The last item of the chain hung for a search's unmatched segments is a leaf with the registered callbacks. */
  lemma UnmatchedSuffixLeaf(t: Tree, segs: seq<string>, r: Found, t2: Tree,
                            onExecute: Option<Handler>, onDispose: Option<Handler>)
    requires WellFormed(t) && r == Find(t, segs) && !r.found
    requires r.lastIndex < |segs| && t2 == AddChain(t, r.last, segs, r.lastIndex, onExecute, onDispose)
    ensures NewLeaf(t2, t2.nextId - 1, onExecute, onDispose)
  {
    AddChainLast(t, r.last, segs, r.lastIndex, onExecute, onDispose);
  }
}
