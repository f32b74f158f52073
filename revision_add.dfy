/**
 * Insertion into the revision storage (`_add`, `_update_parent`, `_check_orphans`) as functions
 * on the storage state, and what insertion guarantees.
 */
module Insertion {
  import opened Outcomes
  import opened Items
  import opened Graph

  /** `parent.children.append(child)`. */
  function AppendChildren(nodes: Nodes, parent: string, cs: seq<string>): Nodes
    requires parent in nodes
  {
    nodes[parent := nodes[parent].(children := nodes[parent].children + cs)]
  }

  /** Appending the orphan at position `i` after the picked ones is appending the longer pick. */
  lemma AppendPickSnoc(nodes: Nodes, parent: string, os: seq<string>, idx: seq<nat>, i: nat)
    requires parent in nodes && i < |os| && forall j :: 0 <= j < |idx| ==> idx[j] < |os|
    ensures var n := AppendChildren(nodes, parent, Pick(os, idx));
      n[parent := n[parent].(children := n[parent].children + [os[i]])] == AppendChildren(nodes, parent, Pick(os, idx + [i]))
  {
    assert Pick(os, idx + [i]) == Pick(os, idx) + [os[i]];
    assert nodes[parent].children + Pick(os, idx) + [os[i]] == nodes[parent].children + (Pick(os, idx) + [os[i]]);
  }

  // ---------------------------------------------------------------------------------------
  // Orphan bookkeeping

  /** One step of the adoption loop: the orphan at `i` still names its parent, and picking it extends the adopted positions. */
  lemma AdoptStep(nodes0: Nodes, p: string, orphans: seq<string>, parents: seq<Option<string>>, adopted: seq<nat>, i: nat)
    requires p in nodes0 && forall k :: 0 <= k < |orphans| ==> orphans[k] in nodes0
    requires parents == ParentsOf(nodes0, orphans) && i < |orphans| && adopted == AdoptedIndices(parents, p, i)
    ensures var nodes := AppendChildren(nodes0, p, Pick(orphans, adopted));
      && orphans[i] in nodes && nodes[orphans[i]].parentRevision == parents[i]
      && AdoptedIndices(parents, p, i + 1) == adopted + (if parents[i] == Some(p) then [i] else [])
      && (parents[i] == Some(p) ==>
            nodes[p := nodes[p].(children := nodes[p].children + [orphans[i]])]
              == AppendChildren(nodes0, p, Pick(orphans, adopted + [i])))
  {
    if parents[i] == Some(p) {
      AppendPickSnoc(nodes0, p, orphans, adopted, i);
    }
  }

  /** The parent id each orphan declares, in list order. */
  function ParentsOf(nodes: Nodes, orphans: seq<string>): (ps: seq<Option<string>>)
    requires forall i :: 0 <= i < |orphans| ==> orphans[i] in nodes
    ensures |ps| == |orphans| && forall i :: 0 <= i < |orphans| ==> ps[i] == nodes[orphans[i]].parentRevision
  {
    seq(|orphans|, i requires 0 <= i < |orphans| => nodes[orphans[i]].parentRevision)
  }

  /**
   * The positions, below `n`, that `_check_orphans` collects for a new item `p`: those whose
   * declared parent is `p`. Ascending, and every such position is there.
   */
  function AdoptedIndices(parents: seq<Option<string>>, p: string, n: nat): (r: seq<nat>)
    requires n <= |parents|
    ensures forall j :: 0 <= j < |r| ==> r[j] < n && parents[r[j]] == Some(p)
    ensures forall j, j' :: 0 <= j < j' < |r| ==> r[j] < r[j']
    ensures forall i :: 0 <= i < n && parents[i] == Some(p) ==> i in r
    decreases n
  {
    if n == 0 then []
    else AdoptedIndices(parents, p, n - 1) + (if parents[n - 1] == Some(p) then [n - 1] else [])
  }

  /** The ids at the given positions, in the given order. */
  function Pick(s: seq<string>, idx: seq<nat>): (r: seq<string>)
    requires forall j :: 0 <= j < |idx| ==> idx[j] < |s|
    ensures |r| == |idx| && forall j :: 0 <= j < |idx| ==> r[j] == s[idx[j]]
  {
    seq(|idx|, j requires 0 <= j < |idx| => s[idx[j]])
  }

  /** The result of `for i in idxs: del s[i]`: what is left, and whether an index ran past the end (IndexError). */
  datatype Deletion = Deletion(rest: seq<string>, failed: bool)

  /**
   * `for i in idxs: del s[i]`, as `_check_orphans` writes it: each deletion shifts the later
   * elements down, yet the later indices are used unchanged; an index past the end raises
   * IndexError and leaves the list as it is at that moment.
   */
  function DeleteAscending(s: seq<string>, idxs: seq<nat>): (d: Deletion)
    ensures forall x :: x in d.rest ==> x in s
    ensures |d.rest| <= |s|
    decreases |idxs|
  {
    if idxs == [] then Deletion(s, false)
    else if idxs[0] < |s| then
      var s' := s[..idxs[0]] + s[idxs[0] + 1..];
      assert forall x :: x in s' ==> x in s;
      DeleteAscending(s', idxs[1..])
    else Deletion(s, true)
  }

  /**
   * The orphans list that adoption is meant to leave: the orphans below `n` whose declared parent
   * is not `p`, in their original order.
   */
  function Unadopted(orphans: seq<string>, parents: seq<Option<string>>, p: string, n: nat): (r: seq<string>)
    requires n <= |orphans| == |parents|
    ensures forall i :: 0 <= i < n && parents[i] != Some(p) ==> orphans[i] in r
    ensures forall x :: x in r ==> exists i :: 0 <= i < n && orphans[i] == x && parents[i] != Some(p)
    ensures |r| + |AdoptedIndices(parents, p, n)| == n
    decreases n
  {
    if n == 0 then []
    else Unadopted(orphans, parents, p, n - 1) + (if parents[n - 1] == Some(p) then [] else [orphans[n - 1]])
  }

  /** With no adoption, or one at position `i`, the corrected list is the old one without position `i`. */
  lemma {:induction false} UnadoptedAtMostOne(orphans: seq<string>, parents: seq<Option<string>>, p: string, n: nat)
    requires n <= |orphans| == |parents|
    ensures AdoptedIndices(parents, p, n) == [] ==> Unadopted(orphans, parents, p, n) == orphans[..n]
    ensures forall i: nat :: AdoptedIndices(parents, p, n) == [i] ==>
      i < n && Unadopted(orphans, parents, p, n) == orphans[..i] + orphans[i + 1..n]
  {
    if n > 0 {
      UnadoptedAtMostOne(orphans, parents, p, n - 1);
      assert orphans[..n] == orphans[..n - 1] + [orphans[n - 1]];
      forall i: nat | AdoptedIndices(parents, p, n) == [i]
        ensures i < n && Unadopted(orphans, parents, p, n) == orphans[..i] + orphans[i + 1..n]
      {
        if parents[n - 1] != Some(p) {
          assert orphans[i + 1..n] == orphans[i + 1..n - 1] + [orphans[n - 1]];
        }
      }
    }
  }

  /** When at most one orphan is adopted, the ascending deletion removes exactly the adopted one. */
  lemma DeleteAscendingAgrees(orphans: seq<string>, parents: seq<Option<string>>, p: string)
    requires |orphans| == |parents|
    requires |AdoptedIndices(parents, p, |parents|)| <= 1
    ensures DeleteAscending(orphans, AdoptedIndices(parents, p, |parents|))
         == Deletion(Unadopted(orphans, parents, p, |parents|), false)
  {
    var idx := AdoptedIndices(parents, p, |parents|);
    UnadoptedAtMostOne(orphans, parents, p, |parents|);
    assert orphans[..|parents|] == orphans;
    if idx != [] {
      var i := idx[0];
      assert idx == [i];
      DeleteAscendingKeepsOrder(orphans, i);
      assert orphans[i + 1..|parents|] == orphans[i + 1..];
    }
  }

  /**
   * The ascending deletion goes wrong once two orphans are adopted at the same time: with both
   * entries of a two-entry list adopted it raises IndexError after removing only the first; with
   * the first two of three adopted it removes the first and the third; with the first and the
   * third adopted it raises IndexError and keeps the third.
   */
  lemma DeleteAscendingMisbehaves()
    ensures DeleteAscending(["x", "y"], [0, 1]) == Deletion(["y"], true)
    ensures DeleteAscending(["x", "y", "z"], [0, 1]) == Deletion(["y"], false)
    ensures DeleteAscending(["x", "y", "z"], [0, 2]) == Deletion(["y", "z"], true)
  {
    assert ["x", "y"][..0] + ["x", "y"][1..] == ["y"];
    assert ["x", "y", "z"][..0] + ["x", "y", "z"][1..] == ["y", "z"];
    assert ["y", "z"][..1] + ["y", "z"][2..] == ["y"];
  }

  /** An entry below every index still to be deleted survives the ascending deletion. */
  lemma {:induction false} DeleteAscendingKeepsBelow(s: seq<string>, idxs: seq<nat>, q: nat)
    requires q < |s| && forall j :: 0 <= j < |idxs| ==> idxs[j] > q
    ensures s[q] in DeleteAscending(s, idxs).rest
    decreases |idxs|
  {
    if idxs != [] && idxs[0] < |s| {
      var s' := s[..idxs[0]] + s[idxs[0] + 1..];
      assert s'[q] == s[q];
      DeleteAscendingKeepsBelow(s', idxs[1..], q);
    }
  }

  /** The second of two ascending indices survives: after the first deletion it sits below every later index. */
  lemma DeleteAscendingKeepsSecond(s: seq<string>, idxs: seq<nat>)
    requires 2 <= |idxs| && idxs[0] < idxs[1] < |s|
    requires forall j :: 1 < j < |idxs| ==> idxs[1] < idxs[j]
    ensures s[idxs[1]] in DeleteAscending(s, idxs).rest
  {
    var i1 := idxs[1];
    var s' := s[..idxs[0]] + s[idxs[0] + 1..];
    assert s'[i1 - 1] == s[i1];
    assert forall j :: 0 <= j < |idxs[1..]| ==> idxs[1..][j] > i1 - 1;
    DeleteAscendingKeepsBelow(s', idxs[1..], i1 - 1);
  }

  /** With distinct ids, an orphan whose parent is `p` is not among those meant to stay. */
  lemma AdoptedNotKept(orphans: seq<string>, parents: seq<Option<string>>, p: string, i: nat)
    requires i < |orphans| == |parents| && parents[i] == Some(p) && Distinct(orphans)
    ensures orphans[i] !in Unadopted(orphans, parents, p, |parents|)
  {
  }

  /**
   * Whenever two or more orphans are adopted at once, the ascending deletion keeps the second
   * one. With distinct ids the list left behind is then never the intended one.
   */
  lemma DeleteAscendingKeepsAdopted(orphans: seq<string>, parents: seq<Option<string>>, p: string)
    requires |orphans| == |parents|
    requires |AdoptedIndices(parents, p, |parents|)| >= 2
    ensures var idx := AdoptedIndices(parents, p, |parents|);
      && parents[idx[1]] == Some(p)
      && orphans[idx[1]] in DeleteAscending(orphans, idx).rest
    ensures Distinct(orphans) ==>
      DeleteAscending(orphans, AdoptedIndices(parents, p, |parents|)).rest != Unadopted(orphans, parents, p, |parents|)
  {
    var idx := AdoptedIndices(parents, p, |parents|);
    DeleteAscendingKeepsSecond(orphans, idx);
    if Distinct(orphans) {
      AdoptedNotKept(orphans, parents, p, idx[1]);
    }
  }

  /** Deleting ascending indices is an index-preserving removal only as long as nothing before them was deleted. */
  lemma DeleteAscendingKeepsOrder(s: seq<string>, i: nat)
    requires i < |s|
    ensures DeleteAscending(s, [i]) == Deletion(s[..i] + s[i + 1..], false)
  {
  }

  // ---------------------------------------------------------------------------------------
  // The three steps of _add

  /** `_update_parent`: link the item under its parent when that is stored, else queue it as an orphan. */
  function AfterUpdateParent(s: StorageState, item: Item): (r: StorageState)
    ensures r.root == s.root && r.revisionToRewrite == s.revisionToRewrite && r.nodes.Keys == s.nodes.Keys
    ensures item.parentRevision.Some? && item.parentRevision.value in s.nodes ==>
      var parent := item.parentRevision.value;
      && r.orphans == s.orphans
      && r.nodes[parent] == s.nodes[parent].(children := s.nodes[parent].children + [item.revision])
      && forall k :: k in s.nodes && k != parent ==> r.nodes[k] == s.nodes[k]
    ensures !(item.parentRevision.Some? && item.parentRevision.value in s.nodes) ==>
      r.nodes == s.nodes && r.orphans == s.orphans + [item.revision]
  {
    if item.parentRevision.Some? && item.parentRevision.value in s.nodes then
      s.(nodes := AppendChildren(s.nodes, item.parentRevision.value, [item.revision]))
    else
      s.(orphans := s.orphans + [item.revision])
  }

  /** The picked orphans are exactly the ones whose parent is `p`. */
  lemma AdoptionFacts(orphans: seq<string>, parents: seq<Option<string>>, p: string, picked: seq<string>)
    requires |orphans| == |parents| && picked == Pick(orphans, AdoptedIndices(parents, p, |parents|))
    ensures forall i :: 0 <= i < |orphans| && parents[i] == Some(p) ==> orphans[i] in picked
    ensures forall c :: c in picked ==> exists i :: 0 <= i < |orphans| && orphans[i] == c && parents[i] == Some(p)
  {
    var idx := AdoptedIndices(parents, p, |parents|);
    forall i | 0 <= i < |orphans| && parents[i] == Some(p)
      ensures orphans[i] in picked
    {
      var j :| 0 <= j < |idx| && idx[j] == i;
      assert picked[j] == orphans[i];
    }
    forall c | c in picked
      ensures exists i :: 0 <= i < |orphans| && orphans[i] == c && parents[i] == Some(p)
    {
      var j :| 0 <= j < |picked| && picked[j] == c;
      assert orphans[idx[j]] == c;
    }
  }

  /**
   * `_check_orphans`: append every orphan whose parent is `p` to `p`'s children in list order,
   * then delete the collected positions with the ascending deletion.
   */
  function AfterCheckOrphans(s: StorageState, p: string): (r: (StorageState, Outcome))
    requires p in s.nodes && forall i :: 0 <= i < |s.orphans| ==> s.orphans[i] in s.nodes
    ensures r.0.root == s.root && r.0.revisionToRewrite == s.revisionToRewrite && r.0.nodes.Keys == s.nodes.Keys
    ensures forall k :: k in s.nodes && k != p ==> r.0.nodes[k] == s.nodes[k]
    // `p` keeps its other fields and its old children, which the adopted orphans follow.
    ensures var before := s.nodes[p].children; var after := r.0.nodes[p].children;
      && r.0.nodes[p] == s.nodes[p].(children := after)
      && |before| <= |after| && after[..|before|] == before
    ensures forall x :: x in r.0.orphans ==> x in s.orphans
    ensures r.1 == Pass || r.1 == Fail(IndexError)
  {
    var parents := ParentsOf(s.nodes, s.orphans);
    var idx := AdoptedIndices(parents, p, |parents|);
    AdoptionFacts(s.orphans, parents, p, Pick(s.orphans, idx));
    var d := DeleteAscending(s.orphans, idx);
    (s.(nodes := AppendChildren(s.nodes, p, Pick(s.orphans, idx)), orphans := d.rest),
     if d.failed then Fail(IndexError) else Pass)
  }

  /**
   * `_add(item)`: the first item becomes the root and the orphans list starts empty; any later
   * item is stored, linked to its parent or queued as an orphan, then adopts waiting orphans.
   */
  function AfterAdd(s: StorageState, item: Item): (r: (StorageState, Outcome))
    requires WellFormed(s)
    ensures r.0.nodes.Keys == s.nodes.Keys + {item.revision}
    ensures s.root.None? ==> r.0.root == Some(item.revision)
    ensures s.root.Some? ==> r.0.root == s.root
    ensures r.0.revisionToRewrite == s.revisionToRewrite
    // The stored item keeps the id, file, parent and date it was given.
    ensures r.0.nodes[item.revision] == item.(children := r.0.nodes[item.revision].children)
  {
    if s.nodes == map[] then
      (s.(nodes := map[item.revision := item], root := Some(item.revision), orphans := []), Pass)
    else
      var stored := s.(nodes := s.nodes[item.revision := item]);
      AfterCheckOrphans(AfterUpdateParent(stored, item), item.revision)
  }

  /** Whether `_update_parent` finds the item's parent (looked up after the item itself is stored). */
  predicate ParentFound(s: StorageState, item: Item)
  {
    item.parentRevision.Some? && (item.parentRevision.value in s.nodes || item.parentRevision.value == item.revision)
  }

  // ---------------------------------------------------------------------------------------
  // What insertion guarantees

  /** Appending children that name `p` as their parent keeps the links consistent. */
  lemma LinkedAppend(nodes: Nodes, p: string, cs: seq<string>)
    requires Linked(nodes) && p in nodes
    requires forall j :: 0 <= j < |cs| ==> cs[j] in nodes && nodes[cs[j]].parentRevision == Some(p)
    ensures Linked(AppendChildren(nodes, p, cs))
  {
    var n' := AppendChildren(nodes, p, cs);
    forall k, c | k in n' && c in n'[k].children
      ensures c in n' && n'[c].parentRevision == Some(k)
    {
      if k == p && c !in nodes[p].children {
        var j :| 0 <= j < |cs| && cs[j] == c;
      }
    }
  }

  /** The first `add` makes its item the root, starts an empty orphans list, and links nothing. */
  lemma AddFirst(s: StorageState, item: Item)
    requires WellFormed(s) && s.nodes == map[]
    ensures AfterAdd(s, item) == (StorageState(map[item.revision := item], Some(item.revision), [], s.revisionToRewrite), Pass)
  {
  }

  /** Storing a fresh, childless item under its id keeps the storage invariant. */
  lemma StoreKeepsWellFormed(s: StorageState, item: Item)
    requires WellFormed(s) && s.nodes != map[] && item.revision !in s.nodes && item.children == []
    ensures WellFormed(s.(nodes := s.nodes[item.revision := item]))
  {
    var n' := s.nodes[item.revision := item];
    forall k, c | k in n' && c in n'[k].children
      ensures c in n' && n'[c].parentRevision == Some(k)
    {
      assert k != item.revision && c in s.nodes[k].children;
    }
  }

  /** `_update_parent` of a stored item other than the root keeps the storage invariant. */
  lemma UpdateParentKeepsWellFormed(s: StorageState, item: Item)
    requires WellFormed(s) && s.root.Some? && item.revision in s.nodes && item.revision != s.root.value
    requires s.nodes[item.revision].parentRevision == item.parentRevision
    ensures WellFormed(AfterUpdateParent(s, item))
  {
    if item.parentRevision.Some? && item.parentRevision.value in s.nodes {
      LinkedAppend(s.nodes, item.parentRevision.value, [item.revision]);
    }
  }

  /** `_check_orphans` keeps the storage invariant, even when its deletion goes wrong. */
  lemma CheckOrphansKeepsWellFormed(s: StorageState, p: string)
    requires WellFormed(s) && p in s.nodes
    ensures WellFormed(AfterCheckOrphans(s, p).0)
  {
    var parents := ParentsOf(s.nodes, s.orphans);
    var idx := AdoptedIndices(parents, p, |parents|);
    var picked := Pick(s.orphans, idx);
    assert forall j :: 0 <= j < |picked| ==> picked[j] in s.orphans;
    LinkedAppend(s.nodes, p, picked);
  }

  /** Insertion of a fresh, childless item keeps the storage invariant, whatever the adoption does. */
  lemma AddPreservesWellFormed(s: StorageState, item: Item)
    requires WellFormed(s) && item.revision !in s.nodes && item.children == []
    ensures WellFormed(AfterAdd(s, item).0)
  {
    if s.nodes != map[] {
      var stored := s.(nodes := s.nodes[item.revision := item]);
      StoreKeepsWellFormed(s, item);
      UpdateParentKeepsWellFormed(stored, item);
      CheckOrphansKeepsWellFormed(AfterUpdateParent(stored, item), item.revision);
    }
  }

  /**
   * A later `add` stores the item under its id with its own fields; when the parent is already
   * stored, the id goes to the end of the parent's children; no other stored item changes.
   */
  lemma AddStoresAndLinks(s: StorageState, item: Item)
    requires WellFormed(s) && s.nodes != map[] && item.revision !in s.nodes
    ensures var t := AfterAdd(s, item).0;
      && t.nodes.Keys == s.nodes.Keys + {item.revision}
      && t.root == s.root && t.revisionToRewrite == s.revisionToRewrite
      && t.nodes[item.revision] == item.(children := t.nodes[item.revision].children)
      && (item.parentRevision.Some? && item.parentRevision.value in s.nodes ==>
            t.nodes[item.parentRevision.value]
              == s.nodes[item.parentRevision.value].(children := s.nodes[item.parentRevision.value].children + [item.revision]))
      && (forall k :: k in s.nodes && item.parentRevision != Some(k) ==> t.nodes[k] == s.nodes[k])
  {
  }

  /** The orphans `_check_orphans` scans after `_update_parent`: the old ones, then the new item when its parent is missing. */
  lemma WaitingOrphans(s: StorageState, item: Item)
    requires WellFormed(s) && s.nodes != map[] && item.revision !in s.nodes
    ensures var u := AfterUpdateParent(s.(nodes := s.nodes[item.revision := item]), item);
      && (forall i :: 0 <= i < |u.orphans| ==> u.orphans[i] in u.nodes)
      && u.orphans == s.orphans + (if ParentFound(s, item) then [] else [item.revision])
      && ParentsOf(u.nodes, u.orphans)
           == ParentsOf(s.nodes, s.orphans) + (if ParentFound(s, item) then [] else [item.parentRevision])
      && (!ParentFound(s, item) ==> item.parentRevision != Some(item.revision))
  {
    var u := AfterUpdateParent(s.(nodes := s.nodes[item.revision := item]), item);
    var ps := ParentsOf(u.nodes, u.orphans);
    var ps0 := ParentsOf(s.nodes, s.orphans);
    assert forall i :: 0 <= i < |s.orphans| ==> u.orphans[i] == s.orphans[i] && s.orphans[i] != item.revision;
    assert forall i :: 0 <= i < |s.orphans| ==> ps[i] == ps0[i];
  }

  /**
   * Adoption: a later `add` of `p` appends to `p`'s children, after `p` itself when it names
   * itself as parent, every stored orphan whose parent is `p`, in orphans-list order.
   */
  lemma AddAdoptsChildren(s: StorageState, item: Item)
    requires WellFormed(s) && s.nodes != map[] && item.revision !in s.nodes && item.children == []
    ensures var p := item.revision;
      var parents := ParentsOf(s.nodes, s.orphans);
      AfterAdd(s, item).0.nodes[p].children
        == (if item.parentRevision == Some(p) then [p] else []) + Pick(s.orphans, AdoptedIndices(parents, p, |parents|))
  {
    var p := item.revision;
    var u := AfterUpdateParent(s.(nodes := s.nodes[p := item]), item);
    var found := ParentFound(s, item);
    var os, ps := s.orphans, ParentsOf(s.nodes, s.orphans);
    var tail: seq<string>, tp: seq<Option<string>> := if found then [] else [p], if found then [] else [item.parentRevision];
    assert p in u.nodes && (forall i :: 0 <= i < |u.orphans| ==> u.orphans[i] in u.nodes)
      && |os| == |ps| && ((tail == [] && tp == []) || (|tail| == 1 && |tp| == 1 && tp[0] != Some(p)))
      && u.orphans == os + tail && ParentsOf(u.nodes, u.orphans) == ps + tp
    by {
      WaitingOrphans(s, item);
    }
    assert u.nodes[p].children == (if item.parentRevision == Some(p) then [p] else []);
    ChildrenAfterQueue(u, os, ps, tail, tp, p);
    assert AfterAdd(s, item) == AfterCheckOrphans(u, p);
  }

  /**
   * `_check_orphans(p)` on a list made of old orphans followed by at most one new orphan with
   * another parent appends to `p`'s children the old orphans whose parent is `p`.
   */
  lemma ChildrenAfterQueue(u: StorageState, os: seq<string>, ps: seq<Option<string>>, tail: seq<string>, tp: seq<Option<string>>, p: string)
    requires p in u.nodes && forall i :: 0 <= i < |u.orphans| ==> u.orphans[i] in u.nodes
    requires |os| == |ps| && ((tail == [] && tp == []) || (|tail| == 1 && |tp| == 1 && tp[0] != Some(p)))
    requires u.orphans == os + tail && ParentsOf(u.nodes, u.orphans) == ps + tp
    ensures AfterCheckOrphans(u, p).0.nodes[p].children == u.nodes[p].children + Pick(os, AdoptedIndices(ps, p, |ps|))
  {
    QueueAlgebra(os, ps, tail, tp, p);
    var idx := AdoptedIndices(ps, p, |ps|);
    assert Pick(u.orphans, idx) == Pick(os, idx);
  }

  /** `_check_orphans` with at most one adoption raises nothing and leaves exactly the corrected list. */
  lemma CheckOrphansAtMostOne(u: StorageState, p: string)
    requires p in u.nodes && forall i :: 0 <= i < |u.orphans| ==> u.orphans[i] in u.nodes
    requires var ps := ParentsOf(u.nodes, u.orphans); |AdoptedIndices(ps, p, |ps|)| <= 1
    ensures var ps := ParentsOf(u.nodes, u.orphans);
      AfterCheckOrphans(u, p).1 == Pass && AfterCheckOrphans(u, p).0.orphans == Unadopted(u.orphans, ps, p, |ps|)
  {
    DeleteAscendingAgrees(u.orphans, ParentsOf(u.nodes, u.orphans), p);
  }

  /**
   * When at most one orphan is adopted, a later `add` of `p` raises nothing and leaves the
   * orphans list without the adopted one, followed by `p` when `p`'s own parent is not stored.
   */
  lemma AddAdoptsOrphans(s: StorageState, item: Item)
    requires WellFormed(s) && s.nodes != map[] && item.revision !in s.nodes && item.children == []
    requires var parents := ParentsOf(s.nodes, s.orphans);
      |AdoptedIndices(parents, item.revision, |parents|)| <= 1
    ensures var parents := ParentsOf(s.nodes, s.orphans);
      && AfterAdd(s, item).1 == Pass
      && AfterAdd(s, item).0.orphans
           == Unadopted(s.orphans, parents, item.revision, |parents|) + (if ParentFound(s, item) then [] else [item.revision])
  {
    var p := item.revision;
    var u := AfterUpdateParent(s.(nodes := s.nodes[p := item]), item);
    assert AfterAdd(s, item) == AfterCheckOrphans(u, p);
    WaitingOrphans(s, item);
    var found := ParentFound(s, item);
    CheckAfterQueue(u, s.orphans, ParentsOf(s.nodes, s.orphans),
      if found then [] else [p], if found then [] else [item.parentRevision], p);
  }

  /**
   * `_check_orphans(p)` on a list made of old orphans followed by at most one new orphan with
   * another parent: with at most one old orphan adopted it raises nothing and leaves the
   * corrected list followed by the new orphan.
   */
  lemma CheckAfterQueue(u: StorageState, os: seq<string>, ps: seq<Option<string>>, tail: seq<string>, tp: seq<Option<string>>, p: string)
    requires p in u.nodes && forall i :: 0 <= i < |u.orphans| ==> u.orphans[i] in u.nodes
    requires |os| == |ps| && ((tail == [] && tp == []) || (|tail| == 1 && |tp| == 1 && tp[0] != Some(p)))
    requires u.orphans == os + tail && ParentsOf(u.nodes, u.orphans) == ps + tp
    requires |AdoptedIndices(ps, p, |ps|)| <= 1
    ensures AfterCheckOrphans(u, p).1 == Pass && AfterCheckOrphans(u, p).0.orphans == Unadopted(os, ps, p, |ps|) + tail
  {
    QueueAlgebra(os, ps, tail, tp, p);
    CheckOrphansAtMostOne(u, p);
  }

  /**
   * Queueing at most one orphan with another parent at the end changes neither the adopted
   * positions nor the corrected list ahead of it.
   */
  lemma QueueAlgebra(os: seq<string>, ps: seq<Option<string>>, tail: seq<string>, tp: seq<Option<string>>, p: string)
    requires |os| == |ps| && ((tail == [] && tp == []) || (|tail| == 1 && |tp| == 1 && tp[0] != Some(p)))
    ensures AdoptedIndices(ps + tp, p, |ps + tp|) == AdoptedIndices(ps, p, |ps|)
    ensures Unadopted(os + tail, ps + tp, p, |ps + tp|) == Unadopted(os, ps, p, |ps|) + tail
  {
    if tail == [] {
      assert os + tail == os && ps + tp == ps;
    } else {
      assert tail == [tail[0]] && tp == [tp[0]];
      AdoptedAfterQueue(ps, tp[0], p);
      UnadoptedAfterQueue(os, ps, tail[0], tp[0], p);
    }
  }

  /** An orphan queued at the end with another parent does not change which positions are adopted. */
  lemma AdoptedAfterQueue(ps: seq<Option<string>>, q: Option<string>, p: string)
    requires q != Some(p)
    ensures AdoptedIndices(ps + [q], p, |ps| + 1) == AdoptedIndices(ps, p, |ps|)
  {
    assert (ps + [q])[..|ps|] == ps[..|ps|];
    AdoptedPrefix(ps + [q], ps, p, |ps|);
  }

  /** An orphan queued at the end with another parent stays at the end of the corrected list. */
  lemma UnadoptedAfterQueue(os: seq<string>, ps: seq<Option<string>>, x: string, q: Option<string>, p: string)
    requires |os| == |ps| && q != Some(p)
    ensures Unadopted(os + [x], ps + [q], p, |ps| + 1) == Unadopted(os, ps, p, |ps|) + [x]
  {
    var n := |ps|;
    assert (ps + [q])[..n] == ps[..n] && (os + [x])[..n] == os[..n];
    UnadoptedPrefix(os + [x], ps + [q], os, ps, p, n);
  }

  /** The adopted positions below `n` depend only on the first `n` parents. */
  lemma {:induction false} AdoptedPrefix(ps: seq<Option<string>>, qs: seq<Option<string>>, p: string, n: nat)
    requires n <= |ps| && n <= |qs| && ps[..n] == qs[..n]
    ensures AdoptedIndices(ps, p, n) == AdoptedIndices(qs, p, n)
    ensures |ps| == n + 1 && ps[n] != Some(p) ==> AdoptedIndices(ps, p, n + 1) == AdoptedIndices(qs, p, n)
  {
    if n > 0 {
      assert ps[..n - 1] == qs[..n - 1] && ps[n - 1] == qs[n - 1] by {
        assert ps[..n][n - 1] == qs[..n][n - 1];
        assert ps[..n - 1] == ps[..n][..n - 1];
        assert qs[..n - 1] == qs[..n][..n - 1];
      }
      AdoptedPrefix(ps, qs, p, n - 1);
    }
  }

  /** The corrected list below `n` depends only on the first `n` orphans and parents. */
  lemma {:induction false} UnadoptedPrefix(
    os: seq<string>, ps: seq<Option<string>>, os0: seq<string>, ps0: seq<Option<string>>, p: string, n: nat)
    requires n <= |os| == |ps| && n <= |os0| == |ps0| && os[..n] == os0[..n] && ps[..n] == ps0[..n]
    ensures Unadopted(os, ps, p, n) == Unadopted(os0, ps0, p, n)
  {
    if n > 0 {
      assert os[..n - 1] == os0[..n - 1] && ps[..n - 1] == ps0[..n - 1] && os[n - 1] == os0[n - 1] && ps[n - 1] == ps0[n - 1] by {
        assert os[..n][n - 1] == os0[..n][n - 1] && ps[..n][n - 1] == ps0[..n][n - 1];
        assert os[..n - 1] == os[..n][..n - 1] && os0[..n - 1] == os0[..n][..n - 1];
        assert ps[..n - 1] == ps[..n][..n - 1] && ps0[..n - 1] == ps0[..n][..n - 1];
      }
      UnadoptedPrefix(os, ps, os0, ps0, p, n - 1);
    }
  }
}
