/**
 * The menu tree (DebugMenu.Item). C# items are heap objects linked by a Parent reference
 * and an owned Children list; the controller's cursor is one more reference into that heap
 * and may keep pointing at an item after it has been detached from the tree. The model
 * therefore keeps every item ever created in an arena indexed by NodeId. Ids come from a
 * counter, and a parent is always created before its children, so parent ids are smaller.
 */
module Items {
  import opened Common
  import Paths

  type NodeId = nat

  /** The root item: created first, named "", never removed. */
  const Root: NodeId := 0

  /** An item callback. Window items get closures that open or close their window. */
  datatype Handler = Custom(id: nat) | OpenWindow(window: nat) | CloseWindow(window: nat)

  /** One item: its name, Parent reference, Children list and the two multicast events. */
  datatype Item = Item(name: string, parent: Option<NodeId>, children: seq<NodeId>,
                       onExecute: seq<Handler>, onDispose: seq<Handler>)

  /** The arena of items and the id the next created item receives. */
  datatype Tree = Tree(items: map<NodeId, Item>, nextId: NodeId)

  /** The tree the controller creates in Awake: only the root, new Item("", null). */
  function Empty(): (t: Tree)
    ensures WellFormed(t) && UniqueSiblings(t)
  {
    Tree(map[Root := Item("", None, [], [], [])], Root + 1)
  }

  predicate ParentOk(t: Tree, id: NodeId)
    requires id in t.items
  {
    var p := t.items[id].parent;
    p.Some? && p.value in t.items && p.value < id
  }

  predicate ChildrenOk(t: Tree, id: NodeId)
    requires id in t.items
  {
    var cs := t.items[id].children;
    && (forall i | 0 <= i < |cs| :: cs[i] in t.items && t.items[cs[i]].parent == Some(id))
    && (forall i, j | 0 <= i < j < |cs| :: cs[i] != cs[j])
  }

  /**
   * The heap shape the C# code maintains: every child points back at the item whose list
   * holds it, only the root lacks a parent, and parents are older than their children.
   * A detached item keeps its Parent even though that parent's list no longer holds it.
   */
  ghost predicate WellFormed(t: Tree)
  {
    && Root in t.items
    && t.items[Root].name == "" && t.items[Root].parent.None?
    && (forall id | id in t.items :: id < t.nextId)
    && (forall id {:trigger ParentOk(t, id)} | id in t.items && id != Root :: ParentOk(t, id))
    && (forall id {:trigger ChildrenOk(t, id)} | id in t.items :: ChildrenOk(t, id))
  }

  predicate DistinctNames(t: Tree, cs: seq<NodeId>)
    requires forall i | 0 <= i < |cs| :: cs[i] in t.items
  {
    forall i, j | 0 <= i < j < |cs| :: t.items[cs[i]].name != t.items[cs[j]].name
  }

  /** No two children of one item share a name; registration keeps this (not enforced in C#). */
  ghost predicate UniqueSiblings(t: Tree)
    requires WellFormed(t)
  {
    forall id | id in t.items :: assert ChildrenOk(t, id); DistinctNames(t, t.items[id].children)
  }

  /** No child of the item is called `name`. */
  predicate NoChildNamed(t: Tree, id: NodeId, name: string)
    requires id in t.items
  {
    forall c | c in t.items[id].children && c in t.items :: t.items[c].name != name
  }

  /** Item.IsLeaf: no children. */
  predicate IsLeaf(t: Tree, id: NodeId)
    requires id in t.items
  {
    |t.items[id].children| <= 0
  }

  /** The names on the parent chain from just below the root down to the item. */
  function Names(t: Tree, id: NodeId): (r: seq<string>)
    requires WellFormed(t) && id in t.items
    ensures id == Root <==> r == []
    decreases id
  {
    var it := t.items[id];
    if it.parent.None? then assert id != Root ==> ParentOk(t, id); [] else assert ParentOk(t, id); Names(t, it.parent.value) + [it.name]
  }

  /** The item is reachable from the root through Children lists. */
  ghost predicate Attached(t: Tree, id: NodeId)
    requires WellFormed(t) && id in t.items
    decreases id
  {
    var it := t.items[id];
    it.parent.None? || (assert ParentOk(t, id); Attached(t, it.parent.value) && id in t.items[it.parent.value].children)
  }

  /** `a` is `n` or one of its ancestors along Parent references. */
  predicate AncestorOrSelf(t: Tree, a: NodeId, n: NodeId)
    requires WellFormed(t) && n in t.items
    decreases n
  {
    n == a || (t.items[n].parent.Some? && assert ParentOk(t, n); AncestorOrSelf(t, a, t.items[n].parent.value))
  }

  /**
   * Item.FullPath: the item's name prefixed by every ancestor's name and a '/'. The root
   * contributes its empty name, so every path below the root starts with '/'.
   */
  function FullPath(t: Tree, id: NodeId): (s: string)
    requires WellFormed(t) && id in t.items
    ensures s == Paths.Join([""] + Names(t, id))
    decreases id
  {
    var it := t.items[id];
    if it.parent.None? then it.name
    else
      var p := it.parent.value;
      assert ParentOk(t, id);
      Paths.JoinSnoc([""] + Names(t, p), it.name);
      assert [""] + Names(t, id) == ([""] + Names(t, p)) + [it.name];
      FullPath(t, p) + "/" + it.name
  }

  /** `t2` has every item of `t` with the same name and Parent reference. */
  ghost predicate SameLinks(t: Tree, t2: Tree)
  {
    forall id | id in t.items :: id in t2.items && t2.items[id].name == t.items[id].name
                                 && t2.items[id].parent == t.items[id].parent
  }

  /** Every child an item of `t` has is still its child in `t2`. */
  ghost predicate KeepsChildren(t: Tree, t2: Tree)
    requires forall id | id in t.items :: id in t2.items
  {
    forall id, c | id in t.items && c in t.items[id].children :: c in t2.items[id].children
  }

  lemma LinksTrans(t: Tree, t1: Tree, t2: Tree)
    requires SameLinks(t, t1) && SameLinks(t1, t2)
    ensures SameLinks(t, t2)
  {
  }

  lemma KeepsTrans(t: Tree, t1: Tree, t2: Tree)
    requires SameLinks(t, t1) && SameLinks(t1, t2)
    requires KeepsChildren(t, t1) && KeepsChildren(t1, t2)
    ensures SameLinks(t, t2) && KeepsChildren(t, t2)
  {
  }

  /** Name paths only read names and Parent references. */
  lemma {:induction false} NamesStable(t: Tree, t2: Tree, id: NodeId)
    requires WellFormed(t) && WellFormed(t2) && SameLinks(t, t2) && id in t.items
    ensures Names(t2, id) == Names(t, id)
    decreases id
  {
    if t.items[id].parent.Some? {
      assert ParentOk(t, id);
      NamesStable(t, t2, t.items[id].parent.value);
    }
  }

  /** Ancestry only reads Parent references. */
  lemma {:induction false} AncestorStable(t: Tree, t2: Tree, a: NodeId, id: NodeId)
    requires WellFormed(t) && WellFormed(t2) && SameLinks(t, t2) && id in t.items
    ensures AncestorOrSelf(t2, a, id) == AncestorOrSelf(t, a, id)
    decreases id
  {
    if t.items[id].parent.Some? {
      assert ParentOk(t, id);
      AncestorStable(t, t2, a, t.items[id].parent.value);
    }
  }

  /** Items stay attached when no child is taken away. */
  lemma {:induction false} AttachedStable(t: Tree, t2: Tree, id: NodeId)
    requires WellFormed(t) && WellFormed(t2) && SameLinks(t, t2) && KeepsChildren(t, t2)
    requires id in t.items
    ensures Attached(t, id) ==> Attached(t2, id)
    decreases id
  {
    if t.items[id].parent.Some? {
      assert ParentOk(t, id);
      AttachedStable(t, t2, t.items[id].parent.value);
    }
  }

  /** Position of the first item in `cs` named `name`, or |cs| (the foreach in FindItemInternal). */
  function FirstNamed(t: Tree, cs: seq<NodeId>, name: string): (k: nat)
    requires forall i | 0 <= i < |cs| :: cs[i] in t.items
    ensures k <= |cs|
    ensures k < |cs| ==> t.items[cs[k]].name == name
    ensures forall i | 0 <= i < k :: t.items[cs[i]].name != name
    decreases |cs|
  {
    if |cs| == 0 then 0
    else if t.items[cs[0]].name == name then 0
    else 1 + FirstNamed(t, cs[1..], name)
  }

  /** FindItem's three results: the return value, lastItem and lastIndex. */
  datatype Found = Found(found: bool, last: NodeId, lastIndex: nat)

  /**
   * Item.FindItemInternal: follow, for each remaining segment, the first child with that
   * name. Fails at the first item none of whose children carries the next segment.
   */
  function FindFrom(t: Tree, id: NodeId, segs: seq<string>, k: nat): (r: Found)
    requires WellFormed(t) && id in t.items && k <= |segs|
    ensures r.last in t.items && k <= r.lastIndex <= |segs|
    ensures r.found <==> r.lastIndex == |segs|
    ensures !r.found ==> NoChildNamed(t, r.last, segs[r.lastIndex])
    decreases |segs| - k
  {
    if k >= |segs| then Found(true, id, k)
    else
      var cs := t.items[id].children;
      assert ChildrenOk(t, id);
      var i := FirstNamed(t, cs, segs[k]);
      if i < |cs| then FindFrom(t, cs[i], segs, k + 1) else Found(false, id, k)
  }

  /** Item.FindItem called on the root. */
  function Find(t: Tree, segs: seq<string>): Found
    requires WellFormed(t)
  {
    FindFrom(t, Root, segs, 0)
  }

  /**
   * Whatever FindFrom reaches lies below its start along the matched segments: its name
   * path is the start's followed by segs[k..lastIndex], and it is attached when the start is.
   */
  lemma {:induction false} FindFromNames(t: Tree, id: NodeId, segs: seq<string>, k: nat)
    requires WellFormed(t) && id in t.items && k <= |segs|
    ensures var r := FindFrom(t, id, segs, k);
      && Names(t, r.last) == Names(t, id) + segs[k..r.lastIndex]
      && (Attached(t, id) ==> Attached(t, r.last))
      && AncestorOrSelf(t, id, r.last)
    decreases |segs| - k
  {
    var r := FindFrom(t, id, segs, k);
    if k < |segs| {
      var cs := t.items[id].children;
      assert ChildrenOk(t, id);
      var i := FirstNamed(t, cs, segs[k]);
      if i < |cs| {
        var c := cs[i];
        assert ChildrenOk(t, id);
        assert t.items[c].parent == Some(id);
        FindFromNames(t, c, segs, k + 1);
        assert Names(t, c) == Names(t, id) + [segs[k]];
        assert segs[k..r.lastIndex] == [segs[k]] + segs[k + 1..r.lastIndex];
        AncestorTrans(t, id, c, r.last);
      }
    }
  }

  /** Ancestry composes. */
  lemma {:induction false} AncestorTrans(t: Tree, a: NodeId, b: NodeId, n: NodeId)
    requires WellFormed(t) && b in t.items && n in t.items
    requires (b in t.items && t.items[b].parent == Some(a)) || a == b
    requires AncestorOrSelf(t, b, n)
    ensures AncestorOrSelf(t, a, n)
    decreases n
  {
    if n != b {
      assert ParentOk(t, n);
      AncestorTrans(t, a, b, t.items[n].parent.value);
    }
  }

  /** Ancestry is transitive. */
  lemma {:induction false} AncestorCompose(t: Tree, a: NodeId, b: NodeId, n: NodeId)
    requires WellFormed(t) && b in t.items && n in t.items
    requires AncestorOrSelf(t, a, b) && AncestorOrSelf(t, b, n)
    ensures AncestorOrSelf(t, a, n)
    decreases n
  {
    if n != b {
      assert ParentOk(t, n);
      AncestorCompose(t, a, b, t.items[n].parent.value);
    }
  }

  /**
   * On success FindItem lands on an attached item whose path is exactly the segments and
   * lastIndex counts all of them; on failure lastIndex counts the matched prefix, lastItem
   * is where that prefix ends, and it has no child named the next segment.
   */
  lemma FindSound(t: Tree, segs: seq<string>)
    requires WellFormed(t)
    ensures var r := Find(t, segs);
      && Attached(t, r.last)
      && Names(t, r.last) == segs[..r.lastIndex]
      && (r.found ==> r.lastIndex == |segs| && Names(t, r.last) == segs)
      && (!r.found ==>
            (r.lastIndex < |segs|
             && NoChildNamed(t, r.last, segs[r.lastIndex])))
  {
    FindFromNames(t, Root, segs, 0);
    assert segs[0..] == segs;
  }

  /** A successful prefix search can be resumed where it stopped. */
  lemma {:induction false} FindExtend(t: Tree, id: NodeId, s1: seq<string>, s2: seq<string>, k: nat)
    requires WellFormed(t) && id in t.items && k <= |s1|
    requires FindFrom(t, id, s1, k).found
    ensures FindFrom(t, id, s1 + s2, k) == FindFrom(t, FindFrom(t, id, s1, k).last, s1 + s2, |s1|)
    decreases |s1| - k
  {
    if k < |s1| {
      var cs := t.items[id].children;
      assert ChildrenOk(t, id);
      assert (s1 + s2)[k] == s1[k];
      var i := FirstNamed(t, cs, s1[k]);
      FindExtend(t, cs[i], s1, s2, k + 1);
    }
  }

  /**
   * With unique sibling names every attached item is found by its own name path:
   * FindItem reaches it and reports every segment matched.
   */
  lemma {:induction false} FindComplete(t: Tree, n: NodeId)
    requires WellFormed(t) && UniqueSiblings(t) && n in t.items && Attached(t, n)
    ensures Find(t, Names(t, n)) == Found(true, n, |Names(t, n)|)
    decreases n
  {
    var it := t.items[n];
    if it.parent.Some? {
      var p := it.parent.value;
      assert ParentOk(t, n);
      FindComplete(t, p);
      var segs := Names(t, n);
      assert segs == Names(t, p) + [it.name];
      FindExtend(t, Root, Names(t, p), [it.name], 0);
      var cs := t.items[p].children;
      var j :| 0 <= j < |cs| && cs[j] == n;
      assert ChildrenOk(t, p);
      var i := FirstNamed(t, cs, it.name);
      assert DistinctNames(t, cs);
      assert t.items[cs[i]].name == t.items[cs[j]].name;
      assert segs[|Names(t, p)|] == it.name;
      assert FindFrom(t, p, segs, |Names(t, p)|) == FindFrom(t, n, segs, |Names(t, p)| + 1);
    }
  }

  /**
   * With unique sibling names FindItem succeeds exactly when some attached item has the
   * segments as its name path, and then it returns that item.
   */
  lemma FindResolves(t: Tree, segs: seq<string>)
    requires WellFormed(t) && UniqueSiblings(t)
    ensures Find(t, segs).found <==> exists n | n in t.items :: Attached(t, n) && Names(t, n) == segs
    ensures forall n | n in t.items && Attached(t, n) && Names(t, n) == segs ::
      Find(t, segs).last == n
  {
    FindSound(t, segs);
    forall n | n in t.items && Attached(t, n) && Names(t, n) == segs
      ensures Find(t, segs) == Found(true, n, |segs|)
    {
      FindComplete(t, n);
    }
  }

  /** A registered item's FullPath is "/" followed by the path it was found under. */
  lemma FullPathOfFound(t: Tree, path: string)
    requires WellFormed(t) && Find(t, Paths.Split(path)).found
    ensures FullPath(t, Find(t, Paths.Split(path)).last) == "/" + path
  {
    var segs := Paths.Split(path);
    var r := Find(t, segs);
    FindSound(t, segs);
    assert Names(t, r.last) == segs;
    var whole := [""] + segs;
    JoinRooted(segs);
    Paths.JoinSplit(path);
    assert FullPath(t, r.last) == Paths.Join(whole);
  }

  /** Joining behind the root's empty name puts a '/' in front. */
  lemma JoinRooted(segs: seq<string>)
    requires |segs| >= 1
    ensures Paths.Join([""] + segs) == "/" + Paths.Join(segs)
  {
    var whole := [""] + segs;
    assert whole[1..] == segs;
  }

  /**
   * FindItem never backtracks: with two siblings named "a", where only the second has a
   * child "b", the path a/b names an attached item, yet the search takes the first "a"
   * and fails there after one matched segment.
   */
  lemma NoBacktracking()
    ensures var t := Tree(map[
                Root := Item("", None, [1, 2], [], []),
                1 := Item("a", Some(Root), [], [], []),
                2 := Item("a", Some(Root), [3], [], []),
                3 := Item("b", Some(2), [], [], [])], 4);
      && WellFormed(t) && !UniqueSiblings(t)
      && Attached(t, 3) && Names(t, 3) == ["a", "b"]
      && Find(t, ["a", "b"]) == Found(false, 1, 1)
  {
    var t := Tree(map[
                Root := Item("", None, [1, 2], [], []),
                1 := Item("a", Some(Root), [], [], []),
                2 := Item("a", Some(Root), [3], [], []),
                3 := Item("b", Some(2), [], [], [])], 4);
    assert ChildrenOk(t, Root) && ChildrenOk(t, 1) && ChildrenOk(t, 2) && ChildrenOk(t, 3);
    assert WellFormed(t);
    assert t.items[[1, 2][0]].name == t.items[[1, 2][1]].name;
    assert !DistinctNames(t, t.items[Root].children);
    assert Names(t, 2) == ["a"];
    assert Attached(t, 2);
    assert FirstNamed(t, [1, 2], "a") == 0;
    assert FirstNamed(t, [], "b") == 0;
  }
}
