/**
 * `fix_revision_conflict` as a function on the storage state: a fork with two children keeps
 * the elder one (the smaller id) and the younger branch is re-attached below the last
 * descendant of the elder one, so the two branches become one line.
 */
module Repair {
  import opened Outcomes
  import opened Items
  import opened Graph
  import opened Text

  /** Of two sibling ids, the one that stays under the fork: `right` when `left > right`, else `left`. */
  function Elder(left: string, right: string): (e: string)
    ensures e == left || e == right
    ensures !Less(left, e) && !Less(right, e)
  {
    LessIrreflexive(left);
    LessIrreflexive(right);
    LessAsymmetric(right, left);
    if Less(right, left) then right else left
  }

  /** Of two sibling ids, the one that is moved: the other one. */
  function Younger(left: string, right: string): (y: string)
    ensures y == left || y == right
    ensures !Less(y, left) && !Less(y, right)
  {
    LessIrreflexive(left);
    LessIrreflexive(right);
    LessAsymmetric(right, left);
    if Less(right, left) then left else right
  }

  /** Two different siblings are split into a strictly smaller elder and a younger one, whatever their order. */
  lemma ElderBeforeYounger(left: string, right: string)
    requires left != right
    ensures Less(Elder(left, right), Younger(left, right))
    ensures Elder(left, right) != Younger(left, right)
    ensures Elder(left, right) == Elder(right, left) && Younger(left, right) == Younger(right, left)
  {
    LessTotal(left, right);
    LessAsymmetric(left, right);
    LessIrreflexive(left);
  }

  /** `del multiparent.children[i]` for the younger child: only `keep` stays. */
  function Detach(nodes: Nodes, fork: string, keep: string): (r: Nodes)
    requires fork in nodes
    ensures r.Keys == nodes.Keys && r[fork] == nodes[fork].(children := [keep])
    ensures forall k :: k in nodes && k != fork ==> r[k] == nodes[k]
    ensures Linked(nodes) && keep in nodes[fork].children ==> Linked(r)
  {
    nodes[fork := nodes[fork].(children := [keep])]
  }

  /** Dropping the younger child from the fork keeps the storage invariant. */
  lemma DetachKeepsWellFormed(s: StorageState, fork: string, keep: string)
    requires WellFormed(s) && fork in s.nodes && keep in s.nodes[fork].children
    ensures WellFormed(s.(nodes := Detach(s.nodes, fork, keep)))
    ensures |Detach(s.nodes, fork, keep)| == |s.nodes|
  {
    assert Detach(s.nodes, fork, keep).Keys == s.nodes.Keys;
  }

  /**
   * The fix of one fork: UnpackError unless it has exactly two children, FixIsImpossible when
   * they are the same id, else the younger child gets the last descendant of the elder one as
   * its parent, is appended to that descendant's children and becomes the revision to rewrite.
   */
  function ApplyFix(s: StorageState, fork: string): (r: (StorageState, Result<bool>))
    requires WellFormed(s) && fork in s.nodes && Reachable(s, fork)
    ensures r.1.Err? ==> r.0 == s
    ensures r.1 == Err(UnpackError) <==> |s.nodes[fork].children| != 2
    ensures r.1 == Err(FixIsImpossible) <==> |s.nodes[fork].children| == 2 && s.nodes[fork].children[0] == s.nodes[fork].children[1]
    ensures r.1.Ok? ==> r.1.value && r.0.root == s.root && r.0.orphans == s.orphans
  {
    var ch := s.nodes[fork].children;
    if |ch| != 2 then (s, Err(UnpackError))
    else if ch[0] == ch[1] then (s, Err(FixIsImpossible))
    else
      var e, y := Elder(ch[0], ch[1]), Younger(ch[0], ch[1]);
      FixArguments(s.nodes, fork, e, y);
      var detached := Detach(s.nodes, fork, e);
      var d := LastDescendant(detached, e);
      (s.(nodes := Relink(detached, y, d), revisionToRewrite := Some(y)), Ok(true))
  }

  /** The children of a fork are stored, and stay stored, with consistent links, once one of them is dropped. */
  lemma FixArguments(nodes: Nodes, fork: string, e: string, y: string)
    requires Linked(nodes) && fork in nodes && |nodes[fork].children| == 2
    requires (e == nodes[fork].children[0] || e == nodes[fork].children[1])
    requires (y == nodes[fork].children[0] || y == nodes[fork].children[1])
    ensures e in nodes && y in nodes && Detach(nodes, fork, e).Keys == nodes.Keys && Linked(Detach(nodes, fork, e))
  {
    assert e in nodes[fork].children && y in nodes[fork].children;
  }

  /**
   * `younger_child.parent_revision = d.revision` then `d.children.append(younger_child.revision)`:
   * the moved item names `d` as its parent and is listed last among `d`'s children.
   */
  function Relink(nodes: Nodes, y: string, d: string): (r: Nodes)
    requires y in nodes && d in nodes
    ensures r.Keys == nodes.Keys
    ensures forall k :: k in nodes ==> r[k].revision == nodes[k].revision
    ensures forall k :: k in nodes ==> r[k].parentRevision == if k == y then Some(d) else nodes[k].parentRevision
    ensures forall k :: k in nodes ==> r[k].children == if k == d then nodes[k].children + [y] else nodes[k].children
    ensures forall k :: k in nodes ==>
      r[k] == nodes[k].(parentRevision := r[k].parentRevision, children := r[k].children)
  {
    var moved := nodes[y := nodes[y].(parentRevision := Some(d))];
    moved[d := moved[d].(children := moved[d].children + [y])]
  }

  /**
   * `fix_revision_conflict(multiparent)`: a non-empty explicit id must be stored (KeyError);
   * without one, the fork search decides (AttributeError before the first `add`, False when
   * there is no fork). The fix is then applied to that fork.
   */
  function AfterFix(s: StorageState, multiparent: Option<string>): (r: (StorageState, Result<bool>))
    requires WellFormed(s)
    requires multiparent.Some? && multiparent.value != "" && multiparent.value in s.nodes ==> Reachable(s, multiparent.value)
    ensures r.1 == Ok(false) || r.1.Err? ==> r.0 == s
    ensures r.1 == Ok(false) <==> (multiparent.None? || multiparent.value == "") && FirstMultiparent(s) == Ok(None)
    ensures r.1 == Err(AttributeError) <==> (multiparent.None? || multiparent.value == "") && s.root.None?
    ensures r.1 == Err(KeyError) <==> multiparent.Some? && multiparent.value != "" && multiparent.value !in s.nodes
  {
    if multiparent.Some? && multiparent.value != "" then
      if multiparent.value !in s.nodes then (s, Err(KeyError)) else ApplyFix(s, multiparent.value)
    else
      match FirstMultiparent(s)
      case Err(e) => (s, Err(e))
      case Ok(None) => (s, Ok(false))
      case Ok(Some(f)) =>
        FirstMultiparentIsFork(s);
        ApplyFix(s, f)
  }

  // ---------------------------------------------------------------------------------------
  // What the fix guarantees

  /**
   * The arena after a fix, item by item: only the fork's children, the younger child's parent
   * and the elder branch's last descendant's children change.
   */
  lemma FixedNodes(s: StorageState, fork: string)
    requires WellFormed(s) && fork in s.nodes && Reachable(s, fork)
    requires |s.nodes[fork].children| == 2 && s.nodes[fork].children[0] != s.nodes[fork].children[1]
    ensures var ch := s.nodes[fork].children;
      var e, y := Elder(ch[0], ch[1]), Younger(ch[0], ch[1]);
      var detached := Detach(s.nodes, fork, e);
      var d := LastDescendant(detached, e);
      var t := ApplyFix(s, fork).0;
      && y in s.nodes && d in s.nodes && t.nodes.Keys == s.nodes.Keys
      && t.root == s.root && t.orphans == s.orphans && t.revisionToRewrite == Some(y)
      && (forall k :: k in s.nodes ==>
            t.nodes[k] == detached[k].(parentRevision := if k == y then Some(d) else s.nodes[k].parentRevision,
                                       children := if k == d then detached[k].children + [y] else detached[k].children))
  {
    var ch := s.nodes[fork].children;
    var e, y := Elder(ch[0], ch[1]), Younger(ch[0], ch[1]);
    assert e in ch && y in ch;
    FixArguments(s.nodes, fork, e, y);
    var detached := Detach(s.nodes, fork, e);
    var d := LastDescendant(detached, e);
    assert ApplyFix(s, fork).0 == s.(nodes := Relink(detached, y, d), revisionToRewrite := Some(y));
  }

  /** Once the fork lists only `keep`, no item lists its other child `y` any more. */
  lemma DetachUnlists(nodes: Nodes, fork: string, keep: string, y: string)
    requires Linked(nodes) && fork in nodes && y in nodes[fork].children && y != keep
    ensures forall k :: k in nodes ==> y !in Detach(nodes, fork, keep)[k].children
  {
    forall k | k in nodes && y in nodes[k].children
      ensures k == fork
    {
      assert nodes[y].parentRevision == Some(k) && nodes[y].parentRevision == Some(fork);
    }
  }

  /** Re-parenting an item nobody lists keeps the links consistent. */
  lemma RelinkKeepsLinked(nodes: Nodes, y: string, d: string)
    requires Linked(nodes) && y in nodes && d in nodes
    requires forall k :: k in nodes ==> y !in nodes[k].children
    ensures Linked(Relink(nodes, y, d))
  {
    var r := Relink(nodes, y, d);
    MovedKeepsLinked(nodes, r, y, d);
  }

  /**
   * Any arena that differs from a consistent one only in `y` naming `d` as its parent and `d`
   * listing `y` last, where nobody listed `y` before, is consistent.
   */
  lemma MovedKeepsLinked(nodes: Nodes, r: Nodes, y: string, d: string)
    requires Linked(nodes) && y in nodes && d in nodes
    requires forall k :: k in nodes ==> y !in nodes[k].children
    requires r.Keys == nodes.Keys
    requires forall k :: k in nodes ==> r[k].revision == nodes[k].revision
    requires forall k :: k in nodes ==> r[k].parentRevision == if k == y then Some(d) else nodes[k].parentRevision
    requires forall k :: k in nodes ==> r[k].children == if k == d then nodes[k].children + [y] else nodes[k].children
    ensures Linked(r)
  {
    forall k, c | k in r && c in r[k].children
      ensures c in r && r[c].parentRevision == Some(k)
    {
      if k == d && c == y {
        assert r[c].parentRevision == Some(d);
      } else {
        assert c in nodes[k].children by {
          if k == d {
            assert c in nodes[k].children + [y];
          }
        }
        assert c != y && c in nodes && nodes[c].parentRevision == Some(k);
        assert r[c].parentRevision == nodes[c].parentRevision;
      }
    }
  }

  /** Re-parenting an item that is neither listed nor the root keeps the storage invariant. */
  lemma RelinkKeepsWellFormed(s: StorageState, y: string, d: string)
    requires WellFormed(s) && y in s.nodes && d in s.nodes && s.root != Some(y)
    requires forall k :: k in s.nodes ==> y !in s.nodes[k].children
    ensures WellFormed(s.(nodes := Relink(s.nodes, y, d), revisionToRewrite := Some(y)))
  {
    RelinkKeepsLinked(s.nodes, y, d);
  }

  /** A fix keeps the storage invariant. */
  lemma FixPreservesWellFormed(s: StorageState, fork: string)
    requires WellFormed(s) && fork in s.nodes && Reachable(s, fork)
    ensures WellFormed(ApplyFix(s, fork).0)
  {
    var ch := s.nodes[fork].children;
    if |ch| == 2 && ch[0] != ch[1] {
      var e, y := Elder(ch[0], ch[1]), Younger(ch[0], ch[1]);
      assert y in ch && e in ch && e != y;
      MovedStateWellFormed(s, fork, e, y);
    }
  }

  /** Dropping `y` from the fork and re-parenting it below the last descendant of `e` keeps the invariant. */
  lemma MovedStateWellFormed(s: StorageState, fork: string, e: string, y: string)
    requires WellFormed(s) && fork in s.nodes && e in s.nodes[fork].children && y in s.nodes[fork].children && e != y
    ensures Linked(Detach(s.nodes, fork, e))
    ensures var detached := Detach(s.nodes, fork, e);
      WellFormed(s.(nodes := Relink(detached, y, LastDescendant(detached, e)), revisionToRewrite := Some(y)))
  {
    var sd := s.(nodes := Detach(s.nodes, fork, e));
    DetachKeepsWellFormed(s, fork, e);
    DetachUnlists(s.nodes, fork, e, y);
    var d := LastDescendant(sd.nodes, e);
    RelinkKeepsWellFormed(sd, y, d);
  }

  /** A fix on a reachable fork or on the fork the search finds keeps the storage invariant. */
  lemma AfterFixPreservesWellFormed(s: StorageState, multiparent: Option<string>)
    requires WellFormed(s)
    requires multiparent.Some? && multiparent.value != "" && multiparent.value in s.nodes ==> Reachable(s, multiparent.value)
    ensures WellFormed(AfterFix(s, multiparent).0)
  {
    if multiparent.Some? && multiparent.value != "" {
      if multiparent.value in s.nodes {
        FixPreservesWellFormed(s, multiparent.value);
      }
    } else if FirstMultiparent(s).Ok? && FirstMultiparent(s).value.Some? {
      FirstMultiparentIsFork(s);
      FixPreservesWellFormed(s, FirstMultiparent(s).value.value);
    }
  }

  /** A path that avoids the fork's dropped child is also a path before the drop. */
  lemma DetachedPathIsPath(nodes: Nodes, fork: string, keep: string, q: seq<string>)
    requires fork in nodes && keep in nodes[fork].children && IsPath(Detach(nodes, fork, keep), q)
    ensures IsPath(nodes, q)
  {
    var dn := Detach(nodes, fork, keep);
    forall i | 0 <= i < |q| - 1
      ensures q[i + 1] in nodes[q[i]].children
    {
      assert q[i + 1] in dn[q[i]].children;
    }
  }

  /** A path to the fork followed by the kept child is a path once the other child is dropped. */
  lemma PathToKept(nodes: Nodes, p: seq<string>, fork: string, keep: string)
    requires IsPath(nodes, p) && Distinct(p) && p[|p| - 1] == fork && keep in nodes && keep in nodes[fork].children
    ensures IsPath(Detach(nodes, fork, keep), p + [keep])
  {
    var q := p + [keep];
    var dn := Detach(nodes, fork, keep);
    forall i | 0 <= i < |q| - 1
      ensures q[i + 1] in dn[q[i]].children
    {
      if i < |p| - 1 {
        assert p[i] != p[|p| - 1];
      }
    }
  }

  /** A walk to a childless item that avoids the fork is one before the drop as well. */
  lemma DetachedWalkIsWalk(nodes: Nodes, fork: string, keep: string, c: seq<string>)
    requires fork in nodes && IsWalk(Detach(nodes, fork, keep), c) && EndsAtLeaf(Detach(nodes, fork, keep), c)
    requires forall i :: 0 <= i < |c| ==> c[i] != fork
    ensures IsWalk(nodes, c) && EndsAtLeaf(nodes, c)
  {
    WalkSameChildren(Detach(nodes, fork, keep), nodes, c);
  }

  /**
   * The elder branch: the chain from the elder child is the same with or without the younger
   * child under the fork, ends at a childless item, and continues the path to the fork.
   */
  lemma ElderBranch(s: StorageState, p: seq<string>, fork: string)
    requires WellFormed(s) && IsRootedPath(s, p) && p[|p| - 1] == fork
    requires |s.nodes[fork].children| == 2 && s.nodes[fork].children[0] != s.nodes[fork].children[1]
    ensures var ch := s.nodes[fork].children;
      var e := Elder(ch[0], ch[1]);
      var c := FirstChildChain(Detach(s.nodes, fork, e), e, |s.nodes|);
      && c == FirstChildChain(s.nodes, e, |s.nodes|)
      && IsWalk(s.nodes, c) && EndsAtLeaf(s.nodes, c)
      && IsRootedPath(s, p + c) && Distinct(p + c)
  {
    var ch := s.nodes[fork].children;
    var e := Elder(ch[0], ch[1]);
    assert e in ch;
    KeptBranch(s, p, fork, e);
  }

  /** The chain from the kept child `e` of the fork, with the fork's other children dropped. */
  lemma KeptBranch(s: StorageState, p: seq<string>, fork: string, e: string)
    requires WellFormed(s) && IsRootedPath(s, p) && p[|p| - 1] == fork && e in s.nodes[fork].children
    ensures var c := FirstChildChain(Detach(s.nodes, fork, e), e, |s.nodes|);
      && c == FirstChildChain(s.nodes, e, |s.nodes|)
      && IsWalk(s.nodes, c) && EndsAtLeaf(s.nodes, c)
      && IsRootedPath(s, p + c) && Distinct(p + c)
  {
    var c := FirstChildChain(Detach(s.nodes, fork, e), e, |s.nodes|);
    DetachedChain(s, p, fork, e);
    assert IsWalk(s.nodes, c) && EndsAtLeaf(s.nodes, c) by {
      assert forall i :: 0 <= i < |c| ==> c[i] == (p + c)[|p| + i] && fork == (p + c)[|p| - 1];
      DetachedWalkIsWalk(s.nodes, fork, e, c);
    }
    WalkIsChain(s.nodes, c, |s.nodes|);
    DetachedPathIsPath(s.nodes, fork, e, p + c);
  }

  /** With the fork's other children dropped, the chain from `e` ends at a childless item and continues the path to the fork. */
  lemma DetachedChain(s: StorageState, p: seq<string>, fork: string, e: string)
    requires WellFormed(s) && IsRootedPath(s, p) && p[|p| - 1] == fork && e in s.nodes[fork].children
    ensures var nd := Detach(s.nodes, fork, e);
      var c := FirstChildChain(nd, e, |s.nodes|);
      && IsWalk(nd, c) && EndsAtLeaf(nd, c) && IsPath(nd, p + c)
      && Distinct(p + c) && |p + c| <= |s.nodes| + 1
  {
    var nd := Detach(s.nodes, fork, e);
    var sd := s.(nodes := nd);
    assert WellFormed(sd) && |nd| == |s.nodes| && IsRootedPath(sd, p + [e]) by {
      DetachKeepsWellFormed(s, fork, e);
      RootedPathDistinct(s, p);
      PathToKept(s.nodes, p, fork, e);
    }
    ChainFrom(sd, p, e);
  }

  /** The chain of first children from the end of a rooted path ends at a childless item and continues the path. */
  lemma ChainFrom(t: StorageState, p: seq<string>, x: string)
    requires WellFormed(t) && IsRootedPath(t, p + [x])
    ensures var c := FirstChildChain(t.nodes, x, |t.nodes|);
      && IsWalk(t.nodes, c) && EndsAtLeaf(t.nodes, c)
      && IsRootedPath(t, p + c) && Distinct(p + c) && |p + c| <= |t.nodes|
  {
    var q := p + [x];
    ChainReachesLeaf(t, q, |t.nodes|);
    var c := FirstChildChain(t.nodes, x, |t.nodes|);
    assert q[|q| - 1] == x && q + c[1..] == p + c;
    RootedPathShort(t, p + c);
  }

  /** The younger branch: the chain from the younger child ends at a childless item and continues the path to the fork. */
  lemma YoungerBranch(s: StorageState, p: seq<string>, fork: string)
    requires WellFormed(s) && IsRootedPath(s, p) && p[|p| - 1] == fork
    requires |s.nodes[fork].children| == 2 && s.nodes[fork].children[0] != s.nodes[fork].children[1]
    ensures var ch := s.nodes[fork].children;
      var c := FirstChildChain(s.nodes, Younger(ch[0], ch[1]), |s.nodes|);
      && IsWalk(s.nodes, c) && EndsAtLeaf(s.nodes, c)
      && IsRootedPath(s, p + c) && Distinct(p + c)
  {
    var ch := s.nodes[fork].children;
    var y := Younger(ch[0], ch[1]);
    assert y in s.nodes[fork].children;
    assert IsRootedPath(s, p + [y]);
    ChainFrom(s, p, y);
  }

  /**
   * The item the younger branch is moved under: the last descendant of the elder child, the
   * same before and after the drop; it is childless, and neither the fork nor the younger child.
   */
  lemma Descendant(s: StorageState, p: seq<string>, fork: string)
    requires WellFormed(s) && IsRootedPath(s, p) && p[|p| - 1] == fork
    requires |s.nodes[fork].children| == 2 && s.nodes[fork].children[0] != s.nodes[fork].children[1]
    ensures var ch := s.nodes[fork].children;
      var e, y := Elder(ch[0], ch[1]), Younger(ch[0], ch[1]);
      var d := LastDescendant(Detach(s.nodes, fork, e), e);
      && d == LastDescendant(s.nodes, e) && s.nodes[d].children == [] && d != fork && d != y && fork != y
  {
    var ch := s.nodes[fork].children;
    var e, y := Elder(ch[0], ch[1]), Younger(ch[0], ch[1]);
    ElderBeforeYounger(ch[0], ch[1]);
    ElderBranch(s, p, fork);
    YoungerBranch(s, p, fork);
    var ce := FirstChildChain(s.nodes, e, |s.nodes|);
    var cy := FirstChildChain(s.nodes, y, |s.nodes|);
    SiblingBranchesDisjoint(s, p, ce, cy);
    assert ce[|ce| - 1] != fork by {
      assert ce[|ce| - 1] == (p + ce)[|p| + |ce| - 1] && fork == (p + ce)[|p| - 1];
    }
    assert ce[|ce| - 1] != cy[0];
    assert fork == (p + cy)[|p| - 1] && y == (p + cy)[|p|];
  }

  /**
   * The fix of a fork reached from the root by `p`: the fork keeps only the elder child (the
   * smaller id), the younger one is re-parented to the childless item the elder branch ends in
   * (the last descendant of the elder child before the fix) and becomes its only child, and
   * the younger one is the revision to rewrite. No other item changes.
   */
  lemma FixRelinksYounger(s: StorageState, p: seq<string>, fork: string)
    requires WellFormed(s) && IsRootedPath(s, p) && p[|p| - 1] == fork && Reachable(s, fork)
    requires |s.nodes[fork].children| == 2 && s.nodes[fork].children[0] != s.nodes[fork].children[1]
    ensures var ch := s.nodes[fork].children;
      var e, y := Elder(ch[0], ch[1]), Younger(ch[0], ch[1]);
      var d := LastDescendant(s.nodes, e);
      var t := ApplyFix(s, fork).0;
      && ApplyFix(s, fork).1 == Ok(true)
      && ((e, y) == (ch[0], ch[1]) || (e, y) == (ch[1], ch[0])) && Less(e, y)
      && s.nodes[d].children == [] && d != fork && d != y
      && t.nodes.Keys == s.nodes.Keys && t.root == s.root && t.orphans == s.orphans
      && t.nodes[fork] == s.nodes[fork].(children := [e])
      && t.nodes[y] == s.nodes[y].(parentRevision := Some(d))
      && t.nodes[d] == s.nodes[d].(children := [y])
      && t.revisionToRewrite == Some(y)
      && (forall k :: k in s.nodes && k != fork && k != y && k != d ==> t.nodes[k] == s.nodes[k])
  {
    var ch := s.nodes[fork].children;
    var e, y := Elder(ch[0], ch[1]), Younger(ch[0], ch[1]);
    ElderBeforeYounger(ch[0], ch[1]);
    Descendant(s, p, fork);
    var D := Detach(s.nodes, fork, e);
    var d := LastDescendant(D, e);
    var t := ApplyFix(s, fork).0;
    assert y in ch;
    assert t.nodes == Relink(D, y, d);
    assert t.nodes[fork] == s.nodes[fork].(children := [e]) by {
      assert t.nodes[fork].children == D[fork].children;
    }
    assert t.nodes[y] == s.nodes[y].(parentRevision := Some(d)) by {
      assert t.nodes[y].children == D[y].children && D[y] == s.nodes[y];
    }
    assert t.nodes[d] == s.nodes[d].(children := [y]) by {
      assert D[d] == s.nodes[d];
    }
  }

  /** Walks that avoid the fork and the elder branch's last item move along the same children after the fix. */
  lemma FixKeepsWalk(s: StorageState, p: seq<string>, fork: string, c: seq<string>, upTo: nat)
    requires WellFormed(s) && IsRootedPath(s, p) && p[|p| - 1] == fork && Reachable(s, fork)
    requires |s.nodes[fork].children| == 2 && s.nodes[fork].children[0] != s.nodes[fork].children[1]
    requires IsWalk(s.nodes, c) && |c| - 1 <= upTo <= |c|
    requires var ch := s.nodes[fork].children;
      forall i :: 0 <= i < upTo ==> c[i] != fork && c[i] != LastDescendant(s.nodes, Elder(ch[0], ch[1]))
    ensures IsWalk(ApplyFix(s, fork).0.nodes, c)
    ensures upTo == |c| && EndsAtLeaf(s.nodes, c) ==> EndsAtLeaf(ApplyFix(s, fork).0.nodes, c)
  {
    var ch := s.nodes[fork].children;
    var t := ApplyFix(s, fork).0;
    FixRelinksYounger(s, p, fork);
    forall i | 0 <= i < upTo
      ensures t.nodes[c[i]].children == s.nodes[c[i]].children
    {
    }
    WalkSameChildren(s.nodes, t.nodes, c);
  }

  /** After a fix, the path to the fork still moves along `children[0]`. */
  lemma FixedPathWalk(s: StorageState, p: seq<string>, fork: string)
    requires WellFormed(s) && IsRootedPath(s, p) && IsWalk(s.nodes, p) && p[|p| - 1] == fork && Reachable(s, fork)
    requires |s.nodes[fork].children| == 2 && s.nodes[fork].children[0] != s.nodes[fork].children[1]
    ensures IsWalk(ApplyFix(s, fork).0.nodes, p)
  {
    var ch := s.nodes[fork].children;
    var ce := FirstChildChain(s.nodes, Elder(ch[0], ch[1]), |s.nodes|);
    ElderBranch(s, p, fork);
    assert forall i :: 0 <= i < |p| - 1 ==> p[i] == (p + ce)[i] && fork == (p + ce)[|p| - 1] && ce[|ce| - 1] == (p + ce)[|p| + |ce| - 1];
    FixKeepsWalk(s, p, fork, p, |p| - 1);
  }

  /** After a fix, the elder branch still moves along `children[0]`. */
  lemma FixedElderWalk(s: StorageState, p: seq<string>, fork: string)
    requires WellFormed(s) && IsRootedPath(s, p) && p[|p| - 1] == fork && Reachable(s, fork)
    requires |s.nodes[fork].children| == 2 && s.nodes[fork].children[0] != s.nodes[fork].children[1]
    ensures var ch := s.nodes[fork].children;
      IsWalk(ApplyFix(s, fork).0.nodes, FirstChildChain(s.nodes, Elder(ch[0], ch[1]), |s.nodes|))
  {
    var ch := s.nodes[fork].children;
    var ce := FirstChildChain(s.nodes, Elder(ch[0], ch[1]), |s.nodes|);
    ElderChainAvoids(s, p, fork);
    FixKeepsWalk(s, p, fork, ce, |ce| - 1);
  }

  /** Before its last item, the elder branch passes neither the fork nor the elder child's last descendant. */
  lemma ElderChainAvoids(s: StorageState, p: seq<string>, fork: string)
    requires WellFormed(s) && IsRootedPath(s, p) && p[|p| - 1] == fork
    requires |s.nodes[fork].children| == 2 && s.nodes[fork].children[0] != s.nodes[fork].children[1]
    ensures var ch := s.nodes[fork].children;
      var e := Elder(ch[0], ch[1]);
      var ce := FirstChildChain(s.nodes, e, |s.nodes|);
      && IsWalk(s.nodes, ce)
      && forall i :: 0 <= i < |ce| - 1 ==> ce[i] != fork && ce[i] != LastDescendant(s.nodes, e)
  {
    var ch := s.nodes[fork].children;
    var ce := FirstChildChain(s.nodes, Elder(ch[0], ch[1]), |s.nodes|);
    assert IsWalk(s.nodes, ce) && Distinct(p + ce) by { ElderBranch(s, p, fork); }
    assert forall i :: 0 <= i < |ce| - 1 ==> ce[i] == (p + ce)[|p| + i] && fork == (p + ce)[|p| - 1] && ce[|ce| - 1] == (p + ce)[|p| + |ce| - 1];
  }

  /** After a fix, the younger branch still moves along `children[0]` down to a childless item. */
  lemma FixedYoungerWalk(s: StorageState, p: seq<string>, fork: string)
    requires WellFormed(s) && IsRootedPath(s, p) && p[|p| - 1] == fork && Reachable(s, fork)
    requires |s.nodes[fork].children| == 2 && s.nodes[fork].children[0] != s.nodes[fork].children[1]
    ensures var ch := s.nodes[fork].children;
      var cy := FirstChildChain(s.nodes, Younger(ch[0], ch[1]), |s.nodes|);
      IsWalk(ApplyFix(s, fork).0.nodes, cy) && EndsAtLeaf(ApplyFix(s, fork).0.nodes, cy)
  {
    var ch := s.nodes[fork].children;
    var ce := FirstChildChain(s.nodes, Elder(ch[0], ch[1]), |s.nodes|);
    var cy := FirstChildChain(s.nodes, Younger(ch[0], ch[1]), |s.nodes|);
    ElderBranch(s, p, fork);
    YoungerBranch(s, p, fork);
    ElderBeforeYounger(ch[0], ch[1]);
    SiblingBranchesDisjoint(s, p, ce, cy);
    assert forall i :: 0 <= i < |cy| ==> cy[i] == (p + cy)[|p| + i] && fork == (p + cy)[|p| - 1];
    FixKeepsWalk(s, p, fork, cy, |cy|);
  }

  /** Three walks joined where each one's last item has the next one's start as its only child. */
  lemma JoinThree(nodes: Nodes, p: seq<string>, a: seq<string>, b: seq<string>)
    requires IsWalk(nodes, p) && IsWalk(nodes, a) && IsWalk(nodes, b) && EndsAtLeaf(nodes, b)
    requires nodes[p[|p| - 1]].children == [a[0]] && nodes[a[|a| - 1]].children == [b[0]]
    ensures IsWalk(nodes, p + a + b) && EndsAtLeaf(nodes, p + a + b)
  {
    WalkJoin(nodes, p, a);
    WalkJoin(nodes, p + a, b);
    assert (p + a + b)[|p + a + b| - 1] == b[|b| - 1];
  }

  /**
   * The line after a fix: when `p` leads from the root to the fork along `children[0]`, the
   * root line of the fixed storage is `p`, then the elder child's whole branch, then the
   * younger child's whole branch, so the two branches are now one line.
   */
  lemma LineAfterFix(s: StorageState, p: seq<string>, fork: string)
    requires WellFormed(s) && IsRootedPath(s, p) && IsWalk(s.nodes, p) && p[|p| - 1] == fork && Reachable(s, fork)
    requires |s.nodes[fork].children| == 2 && s.nodes[fork].children[0] != s.nodes[fork].children[1]
    ensures var ch := s.nodes[fork].children;
      var t := ApplyFix(s, fork).0;
      && WellFormed(t) && t.root.Some?
      && RootLine(t) == p + FirstChildChain(s.nodes, Elder(ch[0], ch[1]), |s.nodes|)
                          + FirstChildChain(s.nodes, Younger(ch[0], ch[1]), |s.nodes|)
  {
    var ch := s.nodes[fork].children;
    var e, y := Elder(ch[0], ch[1]), Younger(ch[0], ch[1]);
    var t := ApplyFix(s, fork).0;
    var ce := FirstChildChain(s.nodes, e, |s.nodes|);
    var cy := FirstChildChain(s.nodes, y, |s.nodes|);
    FixRelinksYounger(s, p, fork);
    FixPreservesWellFormed(s, fork);
    FixedPathWalk(s, p, fork);
    FixedElderWalk(s, p, fork);
    FixedYoungerWalk(s, p, fork);
    JoinThree(t.nodes, p, ce, cy);
    var q := p + ce + cy;
    WalkIsPath(t.nodes, q);
    RootedPathShort(t, q);
    WalkIsChain(t.nodes, q, |t.nodes|);
  }

  /**
   * `fix_revision_conflict()` with no argument, when the first fork on the root line has two
   * different children: it returns True, and the new root line is the old one up to that fork,
   * then the elder child's branch, then the younger child's branch.
   */
  lemma FixFirstFork(s: StorageState)
    requires WellFormed(s) && FirstMultiparent(s).Ok? && FirstMultiparent(s).value.Some?
    requires var f := FirstMultiparent(s).value.value;
      f in s.nodes && |s.nodes[f].children| == 2 && s.nodes[f].children[0] != s.nodes[f].children[1]
    ensures var f := FirstMultiparent(s).value.value;
      var ch := s.nodes[f].children;
      var t := AfterFix(s, None).0;
      && AfterFix(s, None).1 == Ok(true) && WellFormed(t) && t.root.Some?
      && exists k :: 0 <= k < |RootLine(s)| && RootLine(s)[k] == f
           && RootLine(t) == RootLine(s)[..k + 1] + FirstChildChain(s.nodes, Elder(ch[0], ch[1]), |s.nodes|)
                                                  + FirstChildChain(s.nodes, Younger(ch[0], ch[1]), |s.nodes|)
  {
    var f := FirstMultiparent(s).value.value;
    FirstMultiparentIsFork(s);
    var L := RootLine(s);
    var k :| 0 <= k < |L| && L[k] == f && IsWalk(s.nodes, L[..k + 1]) && IsRootedPath(s, L[..k + 1]);
    var q := L[..k + 1];
    assert q[|q| - 1] == f;
    assert AfterFix(s, None) == ApplyFix(s, f);
    LineAfterFix(s, q, f);
  }
}
