/**
 * Removing an item (DebugMenu.PrivateRemoveItem): the item is taken out of its parent's
 * Children list, and then every ancestor left without children is taken out of its own
 * parent in turn, stopping at the first ancestor that still has children or whose
 * parent is the root. Removed items stay in the arena with their Parent and Children.
 */
module Removal {
  import opened Common
  import opened Items

  /** List.Remove: the list without the first occurrence of c. */
  function Without(cs: seq<NodeId>, c: NodeId): (r: seq<NodeId>)
    ensures c !in cs ==> r == cs
    ensures c in cs ==> |r| == |cs| - 1
    ensures forall x | x in r :: x in cs
    ensures forall x | x in cs && x != c :: x in r
  {
    if cs == [] then []
    else if cs[0] == c then cs[1..]
    else [cs[0]] + Without(cs[1..], c)
  }

  predicate Distinct(cs: seq<NodeId>) {
    forall i, j | 0 <= i < j < |cs| :: cs[i] != cs[j]
  }

  /** Removing from a list without repeats leaves no repeats and no occurrence of c. */
  lemma {:induction false} WithoutDistinct(cs: seq<NodeId>, c: NodeId)
    requires Distinct(cs)
    ensures Distinct(Without(cs, c)) && c !in Without(cs, c)
  {
    if cs != [] {
      assert Distinct(cs[1..]) by {
        forall i, j | 0 <= i < j < |cs[1..]| ensures cs[1..][i] != cs[1..][j] {
          assert cs[1..][i] == cs[i + 1] && cs[1..][j] == cs[j + 1];
        }
      }
      if cs[0] != c {
        WithoutDistinct(cs[1..], c);
        var r := Without(cs, c);
        assert cs[0] !in cs[1..];
        assert r == [cs[0]] + Without(cs[1..], c);
        forall i, j | 0 <= i < j < |r| ensures r[i] != r[j] {
          if i == 0 {
            assert r[j] in Without(cs[1..], c);
          } else {
            assert r[i] == Without(cs[1..], c)[i - 1] && r[j] == Without(cs[1..], c)[j - 1];
          }
        }
      } else {
        assert cs[0] !in cs[1..];
      }
    }
  }

  /** The arena with c taken out of p's Children list; nothing else changes. */
  function RemoveChild(t: Tree, p: NodeId, c: NodeId): (t2: Tree)
    requires p in t.items
    ensures t2.nextId == t.nextId
    ensures forall x :: x in t2.items <==> x in t.items
    ensures t2.items[p] == t.items[p].(children := Without(t.items[p].children, c))
    ensures forall x | x in t.items && x != p :: t2.items[x] == t.items[x]
  {
    t.(items := t.items[p := t.items[p].(children := Without(t.items[p].children, c))])
  }

  lemma DistinctNamesSub(t: Tree, cs: seq<NodeId>, r: seq<NodeId>)
    requires forall i | 0 <= i < |cs| :: cs[i] in t.items
    requires DistinctNames(t, cs) && Distinct(r)
    requires forall x | x in r :: x in cs
    ensures forall i | 0 <= i < |r| :: r[i] in t.items
    ensures DistinctNames(t, r)
  {
    forall i | 0 <= i < |r| ensures r[i] in t.items {
      assert r[i] in cs;
      var a :| 0 <= a < |cs| && cs[a] == r[i];
    }
    forall i, j | 0 <= i < j < |r| ensures t.items[r[i]].name != t.items[r[j]].name {
      assert r[i] in cs && r[j] in cs;
      var a :| 0 <= a < |cs| && cs[a] == r[i];
      var b :| 0 <= b < |cs| && cs[b] == r[j];
      assert a != b;
    }
  }

  /** Taking a child out of a list keeps the arena well formed. */
  lemma RemoveChildWellFormed(t: Tree, p: NodeId, c: NodeId)
    requires WellFormed(t) && p in t.items
    ensures WellFormed(RemoveChild(t, p, c))
  {
    var t2 := RemoveChild(t, p, c);
    assert ChildrenOk(t, p);
    var cs := t.items[p].children;
    forall id | id in t2.items && id != Root ensures ParentOk(t2, id) {
      assert ParentOk(t, id);
    }
    forall id | id in t2.items ensures ChildrenOk(t2, id) {
      assert ChildrenOk(t, id);
      if id == p {
        assert Distinct(cs);
        WithoutDistinct(cs, c);
        var r := t2.items[p].children;
        forall i | 0 <= i < |r| ensures r[i] in t2.items && t2.items[r[i]].parent == Some(p) {
          assert r[i] in cs;
          var k :| 0 <= k < |cs| && cs[k] == r[i];
        }
      }
    }
  }

  /** Taking a child out of a list keeps sibling names unique. */
  lemma RemoveChildUnique(t: Tree, p: NodeId, c: NodeId)
    requires WellFormed(t) && UniqueSiblings(t) && p in t.items
    ensures WellFormed(RemoveChild(t, p, c)) && UniqueSiblings(RemoveChild(t, p, c))
  {
    var t2 := RemoveChild(t, p, c);
    RemoveChildWellFormed(t, p, c);
    forall id | id in t2.items ensures ChildrenOk(t2, id) && DistinctNames(t2, t2.items[id].children) {
      assert ChildrenOk(t, id) && ChildrenOk(t2, id);
      var cs := t.items[id].children;
      assert DistinctNames(t, cs);
      if id == p {
        assert Distinct(cs);
        WithoutDistinct(cs, c);
        DistinctNamesSub(t, cs, t2.items[p].children);
      }
      var r := t2.items[id].children;
      assert forall i | 0 <= i < |r| :: t2.items[r[i]].name == t.items[r[i]].name;
    }
  }

  /** The items removed, bottom-up, and the arena afterwards. */
  datatype Pruned = Pruned(tree: Tree, chain: seq<NodeId>)

  /**
   * One turn of the removal loop per item: take `child` out of its parent's list; if the
   * parent now has no children and is not the root, continue with the parent.
   */
  function Prune(t: Tree, child: NodeId): (r: Pruned)
    requires WellFormed(t) && child in t.items && child != Root
    ensures |r.chain| >= 1 && r.chain[0] == child
    ensures r.tree.nextId == t.nextId
    ensures WellFormed(r.tree) && r.tree.items.Keys == t.items.Keys
    decreases child
  {
    assert ParentOk(t, child);
    var p := t.items[child].parent.value;
    var t1 := RemoveChild(t, p, child);
    RemoveChildWellFormed(t, p, child);
    if t1.items[p].parent.Some? && |t1.items[p].children| <= 0 then
      var rest := Prune(t1, p);
      Pruned(rest.tree, [child] + rest.chain)
    else
      Pruned(t1, [child])
  }

  /** `c` climbs Parent references: each entry is a non-root item whose parent is the next entry. */
  ghost predicate UpLinks(t: Tree, c: seq<NodeId>)
  {
    && (forall k | 0 <= k < |c| :: c[k] in t.items && c[k] != Root)
    && (forall k | 0 <= k < |c| - 1 :: c[k] in t.items && t.items[c[k]].parent == Some(c[k + 1]))
  }

  lemma UpLinksCons(t: Tree, t1: Tree, child: NodeId, rest: seq<NodeId>)
    requires SameLinks(t1, t) && UpLinks(t1, rest) && |rest| >= 1
    requires child in t.items && child != Root && t.items[child].parent == Some(rest[0])
    ensures UpLinks(t, [child] + rest)
  {
    var c := [child] + rest;
    forall k | 0 <= k < |c| - 1 ensures c[k] in t.items && t.items[c[k]].parent == Some(c[k + 1]) {
      if k > 0 {
        assert c[k] == rest[k - 1] && c[k + 1] == rest[k];
      }
    }
  }

  /** Going up Parent references, ids only get smaller. */
  lemma {:induction false} UpLinksDecrease(t: Tree, c: seq<NodeId>, i: nat, j: nat)
    requires WellFormed(t) && UpLinks(t, c) && i <= j < |c|
    ensures c[j] <= c[i] && (i < j ==> c[j] < c[i])
    decreases j - i
  {
    if i < j {
      assert ParentOk(t, c[i]);
      UpLinksDecrease(t, c, i + 1, j);
    }
  }

  lemma RemoveChildLinks(t: Tree, p: NodeId, c: NodeId)
    requires p in t.items
    ensures SameLinks(RemoveChild(t, p, c), t) && SameLinks(t, RemoveChild(t, p, c))
  {
  }

  /** The removed items run from the target up its Parent references. */
  lemma {:induction false} PruneChain(t: Tree, child: NodeId)
    requires WellFormed(t) && child in t.items && child != Root
    ensures UpLinks(t, Prune(t, child).chain)
    decreases child
  {
    assert ParentOk(t, child);
    var p := t.items[child].parent.value;
    var t1 := RemoveChild(t, p, child);
    RemoveChildWellFormed(t, p, child);
    RemoveChildLinks(t, p, child);
    if t1.items[p].parent.Some? && |t1.items[p].children| <= 0 {
      PruneChain(t1, p);
      UpLinksCons(t, t1, child, Prune(t1, p).chain);
    }
  }

  /** The last removed item and the parent the loop stopped at. */
  function Top(r: Pruned): NodeId
    requires |r.chain| >= 1
  {
    r.chain[|r.chain| - 1]
  }

  /** The item the removal loop stopped at: the parent of the last removed item, older than all of them. */
  function StoppedAt(t: Tree, child: NodeId): (q: NodeId)
    requires WellFormed(t) && child in t.items && child != Root
    ensures var r := Prune(t, child);
      && q in t.items && Top(r) in t.items && t.items[Top(r)].parent == Some(q)
      && forall k | 0 <= k < |r.chain| :: q < r.chain[k]
  {
    var r := Prune(t, child);
    PruneChain(t, child);
    assert ParentOk(t, Top(r));
    var q := t.items[Top(r)].parent.value;
    assert forall k | 0 <= k < |r.chain| :: q < r.chain[k] by {
      forall k | 0 <= k < |r.chain| ensures q < r.chain[k] {
        UpLinksDecrease(t, r.chain, k, |r.chain| - 1);
      }
    }
    q
  }

  /**
   * Every item after removal: the parent the loop stopped at lost the last removed item,
   * every removed ancestor lost its only child, and all else (the target included) is as before.
   */
  lemma {:induction false} PruneItems(t: Tree, child: NodeId, x: NodeId)
    requires WellFormed(t) && child in t.items && child != Root
    ensures var r := Prune(t, child);
      var q := StoppedAt(t, child);
      && (x in r.tree.items <==> x in t.items)
      && (x in t.items ==>
            r.tree.items[x] ==
              if x == q then t.items[q].(children := Without(t.items[q].children, Top(r)))
              else if x in r.chain[1..] then t.items[x].(children := [])
              else t.items[x])
    decreases child
  {
    PruneChain(t, child);
    assert ParentOk(t, child);
    var p := t.items[child].parent.value;
    var t1 := RemoveChild(t, p, child);
    RemoveChildWellFormed(t, p, child);
    if t1.items[p].parent.Some? && |t1.items[p].children| <= 0 {
      var r := Prune(t, child);
      var rest := Prune(t1, p);
      assert r.chain == [child] + rest.chain && r.tree == rest.tree;
      assert Top(r) == Top(rest);
      PruneItems(t1, p, x);
      PruneChain(t1, p);
      var q := StoppedAt(t, child);
      assert q == StoppedAt(t1, p);
      RemoveChildLinks(t, p, child);
      assert t1.items[Top(r)].parent == t.items[Top(r)].parent;
      assert q < p;
      assert r.chain[1..] == rest.chain;
      if x in t.items && x != q {
        if x == p {
          assert p !in rest.chain[1..] by {
            forall k | 1 <= k < |rest.chain| ensures rest.chain[k] != p {
              UpLinksDecrease(t1, rest.chain, 0, k);
            }
          }
        } else if x in rest.chain[1..] {
          assert x != p;
        }
      }
    }
  }

  /** Removal keeps sibling names unique. */
  lemma {:induction false} PruneUnique(t: Tree, child: NodeId)
    requires WellFormed(t) && UniqueSiblings(t) && child in t.items && child != Root
    ensures UniqueSiblings(Prune(t, child).tree)
    decreases child
  {
    assert ParentOk(t, child);
    var p := t.items[child].parent.value;
    var t1 := RemoveChild(t, p, child);
    RemoveChildUnique(t, p, child);
    if t1.items[p].parent.Some? && |t1.items[p].children| <= 0 {
      PruneUnique(t1, p);
    }
  }

  /** The k-th item of the chain had no child left once the item before it was taken out of its list. */
  predicate Emptied(t: Tree, c: seq<NodeId>, k: nat)
    requires 1 <= k < |c|
  {
    c[k] in t.items && Without(t.items[c[k]].children, c[k - 1]) == []
  }

  /** Why the loop went on: each removed ancestor had no child left once the item below it was taken out. */
  lemma {:induction false} PruneContinues(t: Tree, child: NodeId)
    requires WellFormed(t) && child in t.items && child != Root
    ensures forall k | 1 <= k < |Prune(t, child).chain| :: Emptied(t, Prune(t, child).chain, k)
    decreases child
  {
    assert ParentOk(t, child);
    var p := t.items[child].parent.value;
    var t1 := RemoveChild(t, p, child);
    RemoveChildWellFormed(t, p, child);
    if t1.items[p].parent.Some? && |t1.items[p].children| <= 0 {
      var c := Prune(t, child).chain;
      var rest := Prune(t1, p).chain;
      PruneContinues(t1, p);
      PruneChain(t1, p);
      assert c == [child] + rest;
      forall k | 1 <= k < |c| ensures Emptied(t, c, k) {
        if k >= 2 {
          assert c[k] == rest[k - 1] && c[k - 1] == rest[k - 2];
          assert Emptied(t1, rest, k - 1);
          UpLinksDecrease(t1, rest, 0, k - 1);
          assert t1.items[c[k]] == t.items[c[k]];
        } else {
          assert c[1] == p && t1.items[p].children == Without(t.items[p].children, child);
        }
      }
    }
  }

  /** Why the loop stopped: the item it stopped at is the root or still has children. */
  lemma {:induction false} PruneStops(t: Tree, child: NodeId)
    requires WellFormed(t) && child in t.items && child != Root
    ensures StoppedAt(t, child) == Root || |Prune(t, child).tree.items[StoppedAt(t, child)].children| > 0
    decreases child
  {
    assert ParentOk(t, child);
    var p := t.items[child].parent.value;
    var t1 := RemoveChild(t, p, child);
    RemoveChildWellFormed(t, p, child);
    RemoveChildLinks(t, p, child);
    PruneChain(t, child);
    if t1.items[p].parent.Some? && |t1.items[p].children| <= 0 {
      PruneStops(t1, p);
      PruneChain(t1, p);
      assert StoppedAt(t, child) == StoppedAt(t1, p);
    } else if p != Root {
      assert ParentOk(t, p);
    }
  }

  /** An item is never an ancestor of an older item. */
  lemma {:induction false} NotAncestorOfOlder(t: Tree, a: NodeId, n: NodeId)
    requires WellFormed(t) && n in t.items && n < a
    ensures !AncestorOrSelf(t, a, n)
    decreases n
  {
    if t.items[n].parent.Some? {
      assert ParentOk(t, n);
      NotAncestorOfOlder(t, a, t.items[n].parent.value);
    }
  }

  /** Every entry of a Parent chain lies at or below its last entry. */
  lemma UpLinksBelowTop(t: Tree, c: seq<NodeId>, x: NodeId)
    requires WellFormed(t) && UpLinks(t, c) && x in c
    ensures x in t.items && AncestorOrSelf(t, c[|c| - 1], x)
  {
    var k :| 0 <= k < |c| && c[k] == x;
    UpLinksAncestor(t, c, k, |c| - 1);
  }

  /** An ancestor is never younger than its descendant. */
  lemma AncestorNotYounger(t: Tree, a: NodeId, n: NodeId)
    requires WellFormed(t) && n in t.items
    ensures AncestorOrSelf(t, a, n) ==> a <= n
  {
    if n < a {
      NotAncestorOfOlder(t, a, n);
    }
  }

  /** Later entries of a Parent chain are ancestors of earlier ones. */
  lemma {:induction false} UpLinksAncestor(t: Tree, c: seq<NodeId>, k: nat, j: nat)
    requires WellFormed(t) && UpLinks(t, c) && k <= j < |c|
    ensures AncestorOrSelf(t, c[j], c[k])
    decreases j - k
  {
    if k < j {
      UpLinksAncestor(t, c, k + 1, j);
    }
  }

  /**
   * Exactly the attached items under the highest removed item become unreachable from the
   * root; every other item keeps its place.
   */
  lemma {:induction false} PruneDetaches(t: Tree, child: NodeId, x: NodeId)
    requires WellFormed(t) && child in t.items && child != Root && x in t.items
    ensures x in Prune(t, child).tree.items
    ensures Attached(Prune(t, child).tree, x) <==> Attached(t, x) && !AncestorOrSelf(t, Top(Prune(t, child)), x)
    decreases x
  {
    var r := Prune(t, child);
    PruneItems(t, child, x);
    PruneChain(t, child);
    var top := Top(r);
    var q := StoppedAt(t, child);
    if x != Root {
      assert ParentOk(t, x) && ChildrenOk(t, x);
      var px := t.items[x].parent.value;
      PruneItems(t, child, px);
      assert r.tree.items[x].parent == Some(px);
      PruneDetaches(t, child, px);
      if px == q {
        NotAncestorOfOlder(t, top, q);
        assert ChildrenOk(t, q);
        WithoutDistinct(t.items[q].children, top);
      } else if px in r.chain {
        var k :| 0 <= k < |r.chain| && r.chain[k] == px;
        UpLinksAncestor(t, r.chain, k, |r.chain| - 1);
      } else {
        assert x != top;
      }
    } else {
      assert !AncestorOrSelf(t, top, Root);
    }
  }

  /** Removal changes only children lists. */
  lemma PruneLinks(t: Tree, child: NodeId)
    requires WellFormed(t) && child in t.items && child != Root
    ensures SameLinks(t, Prune(t, child).tree) && SameLinks(Prune(t, child).tree, t)
  {
    forall x | x in t.items
      ensures Prune(t, child).tree.items[x].name == t.items[x].name
      ensures Prune(t, child).tree.items[x].parent == t.items[x].parent
    {
      PruneItems(t, child, x);
    }
  }

  /**
   * DebugMenu.PrivateRemoveItem: when the path resolves, the item found and its emptied
   * ancestors are taken out; otherwise nothing happens.
   */
  function RemoveItem(t: Tree, path: string): (r: Pruned)
    requires WellFormed(t)
    ensures WellFormed(r.tree) && r.tree.items.Keys == t.items.Keys && r.tree.nextId == t.nextId
    ensures !Find(t, Paths.Split(path)).found ==> r == Pruned(t, [])
    ensures Find(t, Paths.Split(path)).found ==>
      |r.chain| >= 1 && r.chain[0] == Find(t, Paths.Split(path)).last && r.chain[0] != Root
    ensures UpLinks(t, r.chain)
  {
    var segs := Paths.Split(path);
    var f := Find(t, segs);
    if f.found then
      FindSound(t, segs);
      PruneChain(t, f.last);
      Prune(t, f.last)
    else
      Pruned(t, [])
  }

  /** After a removal the path no longer resolves. */
  lemma RemoveItemUnresolves(t: Tree, path: string)
    requires WellFormed(t) && UniqueSiblings(t) && Find(t, Paths.Split(path)).found
    ensures !Find(RemoveItem(t, path).tree, Paths.Split(path)).found
  {
    var segs := Paths.Split(path);
    var target := Find(t, segs).last;
    FindSound(t, segs);
    var r := RemoveItem(t, path);
    assert r == Prune(t, target);
    PruneUnique(t, target);
    PruneLinks(t, target);
    FindSound(r.tree, segs);
    var f := Find(r.tree, segs);
    if f.found {
      NamesStable(r.tree, t, f.last);
      PruneDetaches(t, target, f.last);
      FindComplete(t, f.last);
      PruneChain(t, target);
      UpLinksAncestor(t, r.chain, 0, |r.chain| - 1);
      assert false;
    }
  }

  /** Every attached item outside the removed subtree is still found by its own name path. */
  lemma RemoveItemKeepsOthers(t: Tree, path: string, n: NodeId)
    requires WellFormed(t) && UniqueSiblings(t) && n in t.items && Attached(t, n)
    requires Find(t, Paths.Split(path)).found
    requires !AncestorOrSelf(t, Top(RemoveItem(t, path)), n)
    ensures Find(RemoveItem(t, path).tree, Names(t, n)) == Find(t, Names(t, n))
  {
    var segs := Paths.Split(path);
    var target := Find(t, segs).last;
    FindSound(t, segs);
    var r := RemoveItem(t, path);
    PruneUnique(t, target);
    PruneLinks(t, target);
    PruneDetaches(t, target, n);
    NamesStable(t, r.tree, n);
    FindComplete(t, n);
    FindComplete(r.tree, n);
  }

  /** After RemoveItem an attached item stays attached exactly when it is not at or below the topmost removed item. */
  lemma RemoveItemDetaches(t: Tree, path: string, x: NodeId)
    requires WellFormed(t) && x in t.items && Attached(t, x)
    ensures var r := RemoveItem(t, path);
      && x in r.tree.items
      && (Attached(r.tree, x) <==> !(r.chain != [] && AncestorOrSelf(t, Top(r), x)))
  {
    var segs := Paths.Split(path);
    var f := Find(t, segs);
    if f.found {
      assert RemoveItem(t, path) == Prune(t, f.last);
      PruneDetaches(t, f.last, x);
    }
  }

  /**
   * Only the item found and its emptied ancestors are disposed: no item strictly below
   * the one found is in the removed chain, so its dispose callbacks never run.
   */
  lemma RemoveItemSparesDescendants(t: Tree, path: string, x: NodeId)
    requires WellFormed(t) && Find(t, Paths.Split(path)).found && x in t.items
    requires x != Find(t, Paths.Split(path)).last && AncestorOrSelf(t, Find(t, Paths.Split(path)).last, x)
    ensures x !in RemoveItem(t, path).chain
  {
    var target := Find(t, Paths.Split(path)).last;
    var r := RemoveItem(t, path);
    AncestorNotYounger(t, target, x);
    forall k | 0 <= k < |r.chain| ensures r.chain[k] != x {
      UpLinksDecrease(t, r.chain, 0, k);
    }
  }
}
