/**
 * The revision graph kept by `RevisionStorage`, as a value: the id-to-item map, the root id,
 * the orphans list and the revision to rewrite. Defines the invariant every operation keeps,
 * the walks the storage performs along `children[0]`, and the fork search.
 */
module Graph {
  import opened Outcomes
  import opened Items

  /** The storage's own dict: id to item. */
  type Nodes = map<string, Item>

  /**
   * The storage's state. `root` is None until the first `add` creates `root_revision`;
   * `revisionToRewrite` names the item `fix_revision_conflict` re-parented.
   */
  datatype StorageState = StorageState(
    nodes: Nodes,
    root: Option<string>,
    orphans: seq<string>,
    revisionToRewrite: Option<string>)

  /** Every item is stored under its own id, and every listed child is stored and names its lister as parent. */
  ghost predicate Linked(nodes: Nodes)
  {
    && (forall k :: k in nodes ==> nodes[k].revision == k)
    && (forall k, c :: k in nodes && c in nodes[k].children ==> c in nodes && nodes[c].parentRevision == Some(k))
  }

  /** The invariant the storage keeps: links are consistent, the root is nobody's child, orphans are stored. */
  ghost predicate WellFormed(s: StorageState)
  {
    && Linked(s.nodes)
    && (s.root.None? <==> s.nodes == map[])
    && (s.root.Some? ==> s.root.value in s.nodes && s.root.value !in s.orphans)
    && (s.root.Some? ==> forall k :: k in s.nodes ==> s.root.value !in s.nodes[k].children)
    && (forall o :: o in s.orphans ==> o in s.nodes)
  }

  // ---------------------------------------------------------------------------------------
  // Paths down the child lists

  /** `p` goes down child lists: every element after the first is a child of the one before. */
  ghost predicate IsPath(nodes: Nodes, p: seq<string>)
  {
    && |p| > 0
    && (forall i :: 0 <= i < |p| ==> p[i] in nodes)
    && (forall i :: 0 <= i < |p| - 1 ==> p[i + 1] in nodes[p[i]].children)
  }

  ghost predicate IsRootedPath(s: StorageState, p: seq<string>)
  {
    s.root.Some? && IsPath(s.nodes, p) && p[0] == s.root.value
  }

  /** `x` is on some path down from the root, so every walk below it ends. */
  ghost predicate Reachable(s: StorageState, x: string)
  {
    exists p :: IsRootedPath(s, p) && p[|p| - 1] == x
  }

  ghost predicate Distinct(p: seq<string>)
  {
    forall i, j :: 0 <= i < j < |p| ==> p[i] != p[j]
  }

  /** A path from the root never comes back to an id it has passed: the part of the graph below the root is a tree. */
  lemma {:induction false} RootedPathDistinct(s: StorageState, p: seq<string>)
    requires WellFormed(s) && IsRootedPath(s, p)
    ensures Distinct(p)
  {
    if |p| > 1 {
      var n := |p| - 1;
      var q := p[..n];
      assert IsRootedPath(s, q);
      RootedPathDistinct(s, q);
      var x := p[n];
      assert s.nodes[x].parentRevision == Some(p[n - 1]);
      forall j | 0 <= j < n
        ensures p[j] != x
      {
        if j > 0 {
          assert p[j] in s.nodes[p[j - 1]].children;
          assert q[j - 1] != q[n - 1] || j - 1 == n - 1;
        } else {
          assert x in s.nodes[p[n - 1]].children;
        }
      }
    }
  }

  /** A duplicate-free sequence drawn from a set is no longer than the set. */
  lemma {:induction false} DistinctBound(p: seq<string>, keys: set<string>)
    requires Distinct(p) && forall i :: 0 <= i < |p| ==> p[i] in keys
    ensures |p| <= |keys|
  {
    if |p| > 0 {
      var n := |p| - 1;
      assert forall i :: 0 <= i < n ==> p[..n][i] == p[i] && p[i] != p[n];
      DistinctBound(p[..n], keys - {p[n]});
    }
  }

  /** A path from the root has at most as many ids as there are items. */
  lemma RootedPathShort(s: StorageState, p: seq<string>)
    requires WellFormed(s) && IsRootedPath(s, p)
    ensures Distinct(p) && |p| <= |s.nodes|
  {
    RootedPathDistinct(s, p);
    DistinctBound(p, s.nodes.Keys);
  }

  /** A path continued by a path from its last id is still a path. */
  lemma PathConcat(nodes: Nodes, p: seq<string>, c: seq<string>)
    requires IsPath(nodes, p) && IsPath(nodes, c) && c[0] == p[|p| - 1]
    ensures IsPath(nodes, p + c[1..])
  {
    var w := p + c[1..];
    forall i | 0 <= i < |w| - 1
      ensures w[i + 1] in nodes[w[i]].children
    {
      if i >= |p| - 1 {
        assert w[i] == c[i - |p| + 1] && w[i + 1] == c[i - |p| + 2];
      }
    }
  }

  /** A path from the root, cut after any of its ids, is still a path from the root. */
  lemma RootedPrefix(s: StorageState, p: seq<string>, m: nat)
    requires IsRootedPath(s, p) && 1 <= m <= |p|
    ensures IsRootedPath(s, p[..m])
  {
    assert forall i :: 0 <= i < m ==> p[..m][i] == p[i];
  }

  /** Every item below the root is reached by exactly one path from the root. */
  lemma {:induction false} RootedPathsAgree(s: StorageState, p: seq<string>, q: seq<string>)
    requires WellFormed(s)
    ensures IsRootedPath(s, p) && IsRootedPath(s, q) && p[|p| - 1] == q[|q| - 1] ==> p == q
    decreases |p| + |q|
  {
    if IsRootedPath(s, p) && IsRootedPath(s, q) && p[|p| - 1] == q[|q| - 1] {
      if |p| > 1 {
        assert p[|p| - 1] in s.nodes[p[|p| - 2]].children;
      }
      if |q| > 1 {
        assert q[|q| - 1] in s.nodes[q[|q| - 2]].children;
      }
      if |p| > 1 && |q| > 1 {
        var p', q' := p[..|p| - 1], q[..|q| - 1];
        RootedPrefix(s, p, |p| - 1);
        RootedPrefix(s, q, |q| - 1);
        RootedPathsAgree(s, p', q');
        assert p == p' + [p[|p| - 1]] && q == q' + [q[|q| - 1]];
      }
    }
  }

  /** Two branches leaving the same path by different children share no id. */
  lemma SiblingBranchesDisjoint(s: StorageState, p: seq<string>, a: seq<string>, b: seq<string>)
    requires WellFormed(s) && IsRootedPath(s, p + a) && IsRootedPath(s, p + b)
    requires |a| > 0 && |b| > 0 && a[0] != b[0]
    ensures forall i, j :: 0 <= i < |a| && 0 <= j < |b| ==> a[i] != b[j]
  {
    forall i, j | 0 <= i < |a| && 0 <= j < |b|
      ensures a[i] != b[j]
    {
      var pa, pb := (p + a)[..|p| + i + 1], (p + b)[..|p| + j + 1];
      RootedPrefix(s, p + a, |p| + i + 1);
      RootedPrefix(s, p + b, |p| + j + 1);
      RootedPathsAgree(s, pa, pb);
      assert pa[|p|] == a[0] && pb[|p|] == b[0];
      assert pa[|pa| - 1] == a[i] && pb[|pb| - 1] == b[j];
    }
  }

  // ---------------------------------------------------------------------------------------
  // Walks along children[0]

  /** The ids visited by moving to `children[0]` from `from`, at most `fuel` times, stopping at a childless item. */
  function FirstChildChain(nodes: Nodes, from: string, fuel: nat): (p: seq<string>)
    ensures 1 <= |p| <= fuel + 1 && p[0] == from
    decreases fuel
  {
    if fuel == 0 || from !in nodes || nodes[from].children == [] then [from]
    else [from] + FirstChildChain(nodes, nodes[from].children[0], fuel - 1)
  }

  /** `p` moves to `children[0]` at every step. */
  ghost predicate IsWalk(nodes: Nodes, p: seq<string>)
  {
    && |p| > 0
    && (forall i :: 0 <= i < |p| ==> p[i] in nodes)
    && (forall i :: 0 <= i < |p| - 1 ==> nodes[p[i]].children != [] && p[i + 1] == nodes[p[i]].children[0])
  }

  ghost predicate EndsAtLeaf(nodes: Nodes, p: seq<string>)
  {
    |p| > 0 && p[|p| - 1] in nodes && nodes[p[|p| - 1]].children == []
  }

  lemma WalkIsPath(nodes: Nodes, p: seq<string>)
    requires IsWalk(nodes, p)
    ensures IsPath(nodes, p)
  {
    forall i | 0 <= i < |p| - 1
      ensures p[i + 1] in nodes[p[i]].children
    {
      assert p[i + 1] == nodes[p[i]].children[0];
    }
  }

  /** The chain is a walk, and it stops at a childless item unless the fuel ran out first. */
  lemma {:induction false} ChainIsWalk(nodes: Nodes, from: string, fuel: nat)
    requires Linked(nodes) && from in nodes
    ensures IsWalk(nodes, FirstChildChain(nodes, from, fuel))
    ensures EndsAtLeaf(nodes, FirstChildChain(nodes, from, fuel)) || |FirstChildChain(nodes, from, fuel)| == fuel + 1
    decreases fuel
  {
    if fuel > 0 && nodes[from].children != [] {
      var c := nodes[from].children[0];
      assert c in nodes[from].children;
      ChainIsWalk(nodes, c, fuel - 1);
    }
  }

  /** A walk stays a walk in another arena that gives its ids, but the last, the same children. */
  lemma WalkSameChildren(n1: Nodes, n2: Nodes, p: seq<string>)
    requires IsWalk(n1, p) && forall i :: 0 <= i < |p| ==> p[i] in n2
    requires forall i :: 0 <= i < |p| - 1 ==> n2[p[i]].children == n1[p[i]].children
    ensures IsWalk(n2, p)
  {
  }

  /** Two walks joined where the first one's last id has the second one's start as `children[0]`. */
  lemma WalkJoin(nodes: Nodes, a: seq<string>, b: seq<string>)
    requires IsWalk(nodes, a) && IsWalk(nodes, b)
    requires nodes[a[|a| - 1]].children != [] && nodes[a[|a| - 1]].children[0] == b[0]
    ensures IsWalk(nodes, a + b)
  {
    var w := a + b;
    forall i | 0 <= i < |w| - 1
      ensures nodes[w[i]].children != [] && w[i + 1] == nodes[w[i]].children[0]
    {
      if i >= |a| {
        assert w[i] == b[i - |a|] && w[i + 1] == b[i - |a| + 1];
      }
    }
  }

  /** A walk that ends at a childless item is the chain from its first id, given enough fuel. */
  lemma {:induction false} WalkIsChain(nodes: Nodes, p: seq<string>, fuel: nat)
    requires IsWalk(nodes, p) && EndsAtLeaf(nodes, p) && |p| <= fuel + 1
    ensures FirstChildChain(nodes, p[0], fuel) == p
  {
    if |p| > 1 {
      assert IsWalk(nodes, p[1..]) by {
        forall i | 0 <= i < |p| - 2
          ensures nodes[p[1..][i]].children != [] && p[1..][i + 1] == nodes[p[1..][i]].children[0]
        {
          assert p[1..][i] == p[i + 1] && p[1..][i + 1] == p[i + 2];
        }
      }
      WalkIsChain(nodes, p[1..], fuel - 1);
      assert p == [p[0]] + p[1..];
    }
  }

  /** From any id below the root, `children[0]` leads to a childless item within |nodes| moves. */
  lemma ChainReachesLeaf(s: StorageState, q: seq<string>, fuel: nat)
    requires WellFormed(s) && IsRootedPath(s, q) && fuel >= |s.nodes|
    ensures EndsAtLeaf(s.nodes, FirstChildChain(s.nodes, q[|q| - 1], fuel))
    ensures IsWalk(s.nodes, FirstChildChain(s.nodes, q[|q| - 1], fuel))
    ensures IsRootedPath(s, q + FirstChildChain(s.nodes, q[|q| - 1], fuel)[1..])
  {
    var c := FirstChildChain(s.nodes, q[|q| - 1], fuel);
    ChainIsWalk(s.nodes, q[|q| - 1], fuel);
    WalkIsPath(s.nodes, c);
    PathConcat(s.nodes, q, c);
    RootedPathShort(s, q + c[1..]);
  }

  /** `get_revisions_line()`'s value: the chain from the root. */
  function RootLine(s: StorageState): (line: seq<string>)
    requires WellFormed(s) && s.root.Some?
    ensures forall i :: 0 <= i < |line| ==> line[i] in s.nodes
  {
    ChainIsWalk(s.nodes, s.root.value, |s.nodes|);
    FirstChildChain(s.nodes, s.root.value, |s.nodes|)
  }

  /** The root line starts at the root, moves to `children[0]` at every step, ends at a childless item, and repeats no id. */
  lemma RootLineFacts(s: StorageState)
    requires WellFormed(s) && s.root.Some?
    ensures RootLine(s)[0] == s.root.value
    ensures IsWalk(s.nodes, RootLine(s)) && EndsAtLeaf(s.nodes, RootLine(s))
    ensures IsRootedPath(s, RootLine(s)) && Distinct(RootLine(s)) && |RootLine(s)| <= |s.nodes|
  {
    ChainReachesLeaf(s, [s.root.value], |s.nodes|);
    assert [s.root.value] + RootLine(s)[1..] == RootLine(s);
    RootedPathShort(s, RootLine(s));
  }

  /** A walk along `children[0]` with as many steps as there are items either repeats an id or reaches a childless item. */
  lemma ChainRepeatsOrEnds(nodes: Nodes, from: string)
    requires Linked(nodes) && from in nodes
    ensures Distinct(FirstChildChain(nodes, from, |nodes|)) ==> EndsAtLeaf(nodes, FirstChildChain(nodes, from, |nodes|))
  {
    ChainIsWalk(nodes, from, |nodes|);
    var c := FirstChildChain(nodes, from, |nodes|);
    if Distinct(c) {
      DistinctBound(c, nodes.Keys);
    }
  }

  /** `_get_last_descendant(a)`: the childless item reached from `a` along `children[0]`. */
  function LastDescendant(nodes: Nodes, a: string): (d: string)
    requires Linked(nodes) && a in nodes
    ensures d in nodes
    ensures nodes[a].children == [] ==> d == a
    // Only a walk that comes back to an id it already passed can stop at an item with children.
    ensures nodes[d].children != [] ==> !Distinct(FirstChildChain(nodes, a, |nodes|))
  {
    ChainIsWalk(nodes, a, |nodes|);
    ChainRepeatsOrEnds(nodes, a);
    var c := FirstChildChain(nodes, a, |nodes|);
    c[|c| - 1]
  }

  // ---------------------------------------------------------------------------------------
  // The fork search of find_first_multiparent

  /**
   * `line[k]` is where `find_first_multiparent` stops with a result: every id up to it is
   * non-empty (an empty id ends the loop), every earlier item has exactly one child, and
   * `line[k]` has two or more.
   */
  ghost predicate IsFirstFork(nodes: Nodes, line: seq<string>, k: int)
  {
    && 0 <= k < |line|
    && (forall j :: 0 <= j <= k ==> line[j] in nodes && line[j] != "")
    && (forall j :: 0 <= j < k ==> |nodes[line[j]].children| == 1)
    && |nodes[line[k]].children| >= 2
  }

  lemma ForkShift(nodes: Nodes, line: seq<string>)
    requires |line| > 0 && line[0] in nodes && line[0] != "" && |nodes[line[0]].children| == 1
    ensures forall k :: 1 <= k ==> (IsFirstFork(nodes, line, k) <==> IsFirstFork(nodes, line[1..], k - 1))
  {
    forall k | 1 <= k
      ensures IsFirstFork(nodes, line, k) <==> IsFirstFork(nodes, line[1..], k - 1)
    {
      if k < |line| {
        assert forall j :: 0 <= j < k ==> line[1..][j] == line[j + 1];
      }
    }
  }

  /** The position the fork search stops at with a result, if any: the loop of `find_first_multiparent`. */
  function ForkIndex(nodes: Nodes, line: seq<string>): (r: Option<nat>)
    requires forall i :: 0 <= i < |line| ==> line[i] in nodes
    ensures r.Some? ==> IsFirstFork(nodes, line, r.value)
    ensures r.None? ==> forall k :: !IsFirstFork(nodes, line, k)
    decreases |line|
  {
    if line == [] || line[0] == "" || |nodes[line[0]].children| == 0 then None
    else if |nodes[line[0]].children| > 1 then Some(0)
    else
      ForkShift(nodes, line);
      match ForkIndex(nodes, line[1..])
      case None => None
      case Some(k) => Some(k + 1)
  }

  /** `find_first_multiparent()` on a state: AttributeError before the first `add`, else the fork on the root line, if any. */
  function FirstMultiparent(s: StorageState): (r: Result<Option<string>>)
    requires WellFormed(s)
    ensures r.Err? <==> s.root.None?
    ensures r.Err? ==> r.error == AttributeError
    ensures r.Ok? && r.value.Some? ==> exists k :: IsFirstFork(s.nodes, RootLine(s), k) && RootLine(s)[k] == r.value.value
    ensures r.Ok? && r.value.None? ==> forall k :: !IsFirstFork(s.nodes, RootLine(s), k)
  {
    if s.root.None? then Err(AttributeError)
    else
      RootLineFacts(s);
      match ForkIndex(s.nodes, RootLine(s))
      case None => Ok(None)
      case Some(k) => Ok(Some(RootLine(s)[k]))
  }

  /** A fork the search returns is a stored, non-empty id with at least two children, reached from the root by a walk. */
  lemma FirstMultiparentIsFork(s: StorageState)
    requires WellFormed(s) && FirstMultiparent(s).Ok? && FirstMultiparent(s).value.Some?
    ensures var f := FirstMultiparent(s).value.value;
      f in s.nodes && f != "" && |s.nodes[f].children| >= 2 && Reachable(s, f)
      && exists k :: 0 <= k < |RootLine(s)| && RootLine(s)[k] == f
           && IsWalk(s.nodes, RootLine(s)[..k + 1]) && IsRootedPath(s, RootLine(s)[..k + 1])
  {
    var f := FirstMultiparent(s).value.value;
    var L := RootLine(s);
    RootLineFacts(s);
    var k :| IsFirstFork(s.nodes, L, k) && L[k] == f;
    var p := L[..k + 1];
    assert IsWalk(s.nodes, p) by {
      assert forall i :: 0 <= i <= k ==> p[i] == L[i];
    }
    WalkIsPath(s.nodes, p);
    RootedPrefix(s, L, k + 1);
    assert p[|p| - 1] == f;
  }

  /**
   * When no id on the root line is empty, the search finds no fork exactly when every item
   * on the line but the last has a single child (the last has none).
   */
  lemma {:induction false} NoForkMeansLinear(s: StorageState)
    requires WellFormed(s) && s.root.Some?
    requires forall i :: 0 <= i < |RootLine(s)| ==> RootLine(s)[i] != ""
    ensures FirstMultiparent(s) == Ok(None) <==>
      forall i :: 0 <= i < |RootLine(s)| - 1 ==> |s.nodes[RootLine(s)[i]].children| == 1
  {
    var L := RootLine(s);
    RootLineFacts(s);
    if FirstMultiparent(s) == Ok(None) {
      SingleChildPrefix(s, |L| - 1);
    } else {
      var f := FirstMultiparent(s).value.value;
      var k :| IsFirstFork(s.nodes, L, k) && L[k] == f;
      assert |s.nodes[L[k]].children| >= 2;
      assert k < |L| - 1;
    }
  }

  lemma {:induction false} SingleChildPrefix(s: StorageState, n: nat)
    requires WellFormed(s) && s.root.Some? && FirstMultiparent(s) == Ok(None)
    requires forall i :: 0 <= i < |RootLine(s)| ==> RootLine(s)[i] != ""
    requires n <= |RootLine(s)| - 1
    ensures forall i :: 0 <= i < n ==> |s.nodes[RootLine(s)[i]].children| == 1
  {
    var L := RootLine(s);
    RootLineFacts(s);
    if n > 0 {
      SingleChildPrefix(s, n - 1);
      assert s.nodes[L[n - 1]].children != [];
      assert !IsFirstFork(s.nodes, L, n - 1);
    }
  }
}
