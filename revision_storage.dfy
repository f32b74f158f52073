/**
 * `RevisionStorage`: the dict of revisions with its root, orphans list and revision to
 * rewrite, updated in place. Each method follows the source step by step and is proved to
 * compute what the corresponding function on `StorageState` specifies.
 */
module Storage {
  import opened Outcomes
  import opened Items
  import opened Graph
  import opened Text
  import opened Insertion
  import opened Repair
  import opened Conflict

  class RevisionStorage {
    var nodes: Nodes
    var root: Option<string>
    var orphans: seq<string>
    var revisionToRewrite: Option<string>

    function State(): StorageState
      reads this
    {
      StorageState(nodes, root, orphans, revisionToRewrite)
    }

    ghost predicate Valid()
      reads this
    {
      WellFormed(State())
    }

    /** An empty storage: no item, no root yet. */
    constructor()
      ensures Valid() && State() == StorageState(map[], None, [], None)
    {
      nodes := map[];
      root := None;
      orphans := [];
      revisionToRewrite := None;
    }

    /**
     * `add(rev_item, revision, down_revision, revision_date, original_filepath)`: without an
     * item one is built from the other arguments; then `_add`.
     */
    method Add(revItem: Option<Item>, revision: string, downRevision: Option<string>,
               revisionDate: Option<DateTime>, originalFilepath: Option<string>) returns (o: Outcome)
      requires Valid()
      requires revItem.Some? ==> revItem.value.revision !in nodes && revItem.value.children == []
      requires revItem.None? ==> revision !in nodes
      modifies this
      ensures Valid()
      ensures var item := if revItem.Some? then revItem.value else NewItem(revision, originalFilepath, downRevision, revisionDate);
        (State(), o) == AfterAdd(old(State()), item)
    {
      var item: Item;
      if revItem.Some? {
        item := revItem.value;
      } else {
        item := NewItem(revision, originalFilepath, downRevision, revisionDate);
      }
      o := AddItem(item);
    }

    /** `_add(item)`: the first item becomes the root; a later one is stored, linked or queued, then adopts. */
    method AddItem(item: Item) returns (o: Outcome)
      requires Valid() && item.revision !in nodes && item.children == []
      modifies this
      ensures Valid()
      ensures (State(), o) == AfterAdd(old(State()), item)
    {
      ghost var s0 := State();
      AddPreservesWellFormed(s0, item);
      if |nodes| == 0 {
        root := Some(item.revision);
        nodes := nodes[item.revision := item];
        orphans := [];
        return Pass;
      }
      ghost var stored := State().(nodes := nodes[item.revision := item]);
      nodes := nodes[item.revision := item];
      assert State() == stored;
      UpdateParent(item);
      assert State() == AfterUpdateParent(stored, item);
      WaitingOrphans(s0, item);
      o := CheckOrphans(item.revision);
      assert (State(), o) == AfterCheckOrphans(AfterUpdateParent(stored, item), item.revision);
      assert s0.nodes != map[] && (State(), o) == AfterAdd(s0, item);
    }

    /** `_update_parent(item)`: append the id to its parent's children, or to the orphans when the parent is not stored. */
    method UpdateParent(item: Item)
      modifies this
      ensures State() == AfterUpdateParent(old(State()), item)
    {
      if item.parentRevision.Some? && item.parentRevision.value in nodes {
        var p := item.parentRevision.value;
        nodes := nodes[p := nodes[p].(children := nodes[p].children + [item.revision])];
      } else {
        orphans := orphans + [item.revision];
      }
    }

    /**
     * `_check_orphans(new_parent)`: collect the positions of the orphans whose parent is
     * `newParent`, appending each to its children, then `del` those positions in ascending order.
     */
    method CheckOrphans(newParent: string) returns (o: Outcome)
      requires newParent in nodes && forall i :: 0 <= i < |orphans| ==> orphans[i] in nodes
      modifies this
      ensures (State(), o) == AfterCheckOrphans(old(State()), newParent)
    {
      var adopted := AdoptOrphans(newParent);
      o := DeleteAdopted(adopted);
    }

    /** The first loop of `_check_orphans`: append every orphan whose parent is `newParent` to its children. */
    method AdoptOrphans(newParent: string) returns (adopted: seq<nat>)
      requires newParent in nodes && forall i :: 0 <= i < |orphans| ==> orphans[i] in nodes
      modifies this
      ensures orphans == old(orphans) && root == old(root) && revisionToRewrite == old(revisionToRewrite)
      ensures var parents := ParentsOf(old(nodes), old(orphans));
        && adopted == AdoptedIndices(parents, newParent, |parents|)
        && nodes == AppendChildren(old(nodes), newParent, Pick(orphans, adopted))
    {
      ghost var parents := ParentsOf(nodes, orphans);
      ghost var nodes0 := nodes;
      adopted := [];
      assert nodes0[newParent].children + [] == nodes0[newParent].children;
      for i := 0 to |orphans|
        invariant orphans == old(orphans) && root == old(root) && revisionToRewrite == old(revisionToRewrite)
        invariant adopted == AdoptedIndices(parents, newParent, i)
        invariant nodes == AppendChildren(nodes0, newParent, Pick(orphans, adopted))
      {
        var orphan := orphans[i];
        assert orphan in nodes && nodes[orphan].parentRevision == parents[i]
          && AdoptedIndices(parents, newParent, i + 1) == adopted + (if parents[i] == Some(newParent) then [i] else [])
          && (parents[i] == Some(newParent) ==>
                nodes[newParent := nodes[newParent].(children := nodes[newParent].children + [orphan])]
                  == AppendChildren(nodes0, newParent, Pick(orphans, adopted + [i])))
        by {
          AdoptStep(nodes0, newParent, orphans, parents, adopted, i);
        }
        var orphanItem := nodes[orphan];
        if orphanItem.parentRevision == Some(newParent) {
          nodes := nodes[newParent := nodes[newParent].(children := nodes[newParent].children + [orphan])];
          adopted := adopted + [i];
        }
      }
    }

    /** The second loop of `_check_orphans`: `del self.orphans[i]` for each collected position, in ascending order. */
    method DeleteAdopted(adopted: seq<nat>) returns (o: Outcome)
      modifies this
      ensures var d := DeleteAscending(old(orphans), adopted);
        orphans == d.rest && o == (if d.failed then Fail(IndexError) else Pass)
      ensures nodes == old(nodes) && root == old(root) && revisionToRewrite == old(revisionToRewrite)
    {
      var j := 0;
      while j < |adopted|
        invariant j <= |adopted|
        invariant nodes == old(nodes) && root == old(root) && revisionToRewrite == old(revisionToRewrite)
        invariant DeleteAscending(orphans, adopted[j..]) == DeleteAscending(old(orphans), adopted)
      {
        var idx := adopted[j];
        if idx >= |orphans| {
          return Fail(IndexError);
        }
        orphans := orphans[..idx] + orphans[idx + 1..];
        assert adopted[j..][1..] == adopted[j + 1..];
        j := j + 1;
      }
      assert adopted[j..] == [];
      return Pass;
    }

    /** `find_first_multiparent()`: walk `children[0]` from the root until an empty id, a leaf or a fork. */
    method FindFirstMultiparent() returns (r: Result<Option<string>>)
      requires Valid()
      ensures r == FirstMultiparent(State())
    {
      if root.None? {
        return Err(AttributeError);
      }
      RootLineFacts(State());
      ghost var line := RootLine(State());
      var current := root.value;
      ghost var i := 0;
      while current != ""
        invariant 0 <= i < |line| && current == line[i]
        invariant FirstMultiparent(State()) == ShiftedFork(ForkIndex(nodes, line[i..]), line, i)
        decreases |line| - i
      {
        var item := nodes[current];
        var childrenLen := |item.children|;
        if childrenLen == 0 {
          return Ok(None);
        }
        if childrenLen > 1 {
          return Ok(Some(current));
        }
        assert line[i..][1..] == line[i + 1..];
        current := item.children[0];
        i := i + 1;
      }
      return Ok(None);
    }

    /** The search's answer from a position found on a suffix of the line. */
    ghost function ShiftedFork(k: Option<nat>, line: seq<string>, i: nat): Result<Option<string>>
    {
      match k
      case None => Ok(None)
      case Some(k) => if i + k < |line| then Ok(Some(line[i + k])) else Ok(None)
    }

    /**
     * `fix_revision_conflict(multiparent)`: find the fork, keep the elder child under it, and
     * attach the younger one below the elder one's last descendant.
     */
    method FixRevisionConflict(multiparent: Option<string>) returns (r: Result<bool>)
      requires Valid()
      requires multiparent.Some? && multiparent.value != "" && multiparent.value in nodes ==> Reachable(State(), multiparent.value)
      modifies this
      ensures Valid()
      ensures (State(), r) == AfterFix(old(State()), multiparent)
    {
      AfterFixPreservesWellFormed(State(), multiparent);
      ghost var s0 := State();
      var m: string;
      if multiparent.Some? && multiparent.value != "" {
        m := multiparent.value;
      } else {
        var found := FindFirstMultiparent();
        if found.Err? {
          return Err(found.error);
        }
        if found.value.None? {
          return Ok(false);
        }
        m := found.value.value;
        FirstMultiparentIsFork(s0);
      }
      if m !in nodes {
        return Err(KeyError);
      }
      assert AfterFix(s0, multiparent) == ApplyFix(s0, m);
      r := FixFork(m);
    }

    /** The body of `fix_revision_conflict` once the fork `m` is known and stored. */
    method FixFork(m: string) returns (r: Result<bool>)
      requires Valid() && m in nodes && Reachable(State(), m)
      modifies this
      ensures (State(), r) == ApplyFix(old(State()), m)
    {
      ghost var s0 := State();
      var ch := nodes[m].children;
      if |ch| != 2 {
        return Err(UnpackError);
      }
      var left, right := ch[0], ch[1];
      if left == right {
        return Err(FixIsImpossible);
      }
      assert left in s0.nodes[m].children && right in s0.nodes[m].children;
      assert left in nodes && right in nodes;
      var elder, younger;
      if Less(right, left) {
        elder, younger := right, left;
        assert nodes[m].children[1..] == [elder];
        nodes := nodes[m := nodes[m].(children := nodes[m].children[1..])];
      } else {
        elder, younger := left, right;
        assert nodes[m].children[..1] == [elder];
        nodes := nodes[m := nodes[m].(children := nodes[m].children[..1])];
      }
      assert elder == Elder(left, right) && younger == Younger(left, right);
      assert nodes == Detach(s0.nodes, m, elder);
      ElderReachable(s0, m, elder);
      AttachYounger(elder, younger);
      return Ok(true);
    }

    /**
     * The end of `fix_revision_conflict`, once the fork keeps only `elder`: `younger` becomes
     * the revision to rewrite and is attached below the last descendant of `elder`.
     */
    method AttachYounger(elder: string, younger: string)
      requires Valid() && elder in nodes && Reachable(State(), elder) && younger in nodes
      modifies this
      ensures nodes == Relink(old(nodes), younger, LastDescendant(old(nodes), elder))
      ensures root == old(root) && orphans == old(orphans) && revisionToRewrite == Some(younger)
    {
      revisionToRewrite := Some(younger);
      assert Reachable(State(), elder) by {
        var p :| IsRootedPath(old(State()), p) && p[|p| - 1] == elder;
        assert IsRootedPath(State(), p);
      }
      var last := GetLastDescendant(elder);
      var d := last.value.revision;
      assert d == LastDescendant(nodes, elder) && d in nodes;
      nodes := nodes[younger := nodes[younger].(parentRevision := Some(d))];
      nodes := nodes[d := nodes[d].(children := nodes[d].children + [younger])];
    }

    /** The kept child of a reachable fork is reachable once the other child is dropped. */
    static lemma ElderReachable(s: StorageState, m: string, elder: string)
      requires WellFormed(s) && m in s.nodes && Reachable(s, m) && elder in s.nodes[m].children
      ensures forall y :: WellFormed(s.(nodes := Detach(s.nodes, m, elder), revisionToRewrite := y))
      ensures forall y :: Reachable(s.(nodes := Detach(s.nodes, m, elder), revisionToRewrite := y), elder)
    {
      var p :| IsRootedPath(s, p) && p[|p| - 1] == m;
      RootedPathDistinct(s, p);
      DetachKeepsWellFormed(s, m, elder);
      PathToKept(s.nodes, p, m, elder);
      forall y
        ensures Reachable(s.(nodes := Detach(s.nodes, m, elder), revisionToRewrite := y), elder)
      {
        var q := p + [elder];
        assert IsRootedPath(s.(nodes := Detach(s.nodes, m, elder), revisionToRewrite := y), q);
      }
    }

    /**
     * `_get_last_descendant(ancestor)`: follow `children[0]` from `ancestor` to a childless
     * item. KeyError when `ancestor` is not stored.
     */
    method GetLastDescendant(ancestor: string) returns (r: Result<Item>)
      requires Valid()
      requires ancestor in nodes ==> Reachable(State(), ancestor)
      ensures r.Err? <==> ancestor !in nodes
      ensures r.Err? ==> r.error == KeyError
      ensures r.Ok? ==> r.value == nodes[LastDescendant(nodes, ancestor)] && r.value.children == []
    {
      if ancestor !in nodes {
        return Err(KeyError);
      }
      ghost var p :| IsRootedPath(State(), p) && p[|p| - 1] == ancestor;
      ChainReachesLeaf(State(), p, |nodes|);
      ghost var chain := FirstChildChain(nodes, ancestor, |nodes|);
      var current := nodes[ancestor];
      ghost var i := 0;
      while current.children != []
        invariant 0 <= i < |chain| && current == nodes[chain[i]]
        decreases |chain| - i
      {
        current := nodes[current.children[0]];
        i := i + 1;
      }
      return Ok(current);
    }

    /** `get_revisions_line()`: the ids from the root along `children[0]` down to a childless item. */
    method GetRevisionsLine() returns (r: Result<seq<string>>)
      requires Valid()
      ensures r.Err? <==> root.None?
      ensures r.Err? ==> r.error == AttributeError
      ensures r.Ok? ==> r.value == RootLine(State())
      ensures r.Ok? ==> r.value[0] == root.value && IsWalk(nodes, r.value) && EndsAtLeaf(nodes, r.value) && Distinct(r.value)
    {
      if root.None? {
        return Err(AttributeError);
      }
      RootLineFacts(State());
      ghost var line := RootLine(State());
      var revisions := [root.value];
      var current := nodes[root.value];
      while current.children != []
        invariant 1 <= |revisions| <= |line| && revisions == line[..|revisions|]
        invariant current == nodes[line[|revisions| - 1]]
        decreases |line| - |revisions|
      {
        current := nodes[current.children[0]];
        revisions := revisions + [current.revision];
      }
      assert revisions == line;
      return Ok(revisions);
    }

    /** `get_conflict_place_str(multiparent)`: the five-row picture of the fork, row by row. */
    method GetConflictPlaceStr(multiparent: Option<string>, strftime: DateTime -> string) returns (r: Result<string>)
      requires Valid()
      ensures r == ConflictPlace(State(), multiparent, strftime)
    {
      var m: Option<string> := multiparent;
      if multiparent.None? || multiparent.value == "" {
        var found := FindFirstMultiparent();
        if found.Err? {
          return Err(found.error);
        }
        m := found.value;
      }
      if m.None? || m.value !in nodes {
        return Err(KeyError);
      }
      var ch := nodes[m.value].children;
      if |ch| != 2 {
        return Err(UnpackError);
      }
      assert ch[0] in ch && ch[1] in ch;
      var upperChild := Str(nodes[ch[0]], strftime);
      var lowerChild := Str(nodes[ch[1]], strftime);
      var id := m.value;
      var result := ConflictPicture(id, upperChild, lowerChild);
      return Ok(result);
    }

    /** The rows of `get_conflict_place_str`, each added to the result with its newline. */
    static method ConflictPicture(id: string, upperChild: string, lowerChild: string) returns (result: string)
      ensures result == Join(ConflictRows(id, upperChild, lowerChild))
    {
      ghost var rows := ConflictRows(id, upperChild, lowerChild);
      result := "";
      assert result == Join(rows[..0]);
      var upperRow := Spaces(|Prefix| + |UpperBranch| + |id|) + upperChild;
      JoinPrefix(rows, 0);
      result := result + (upperRow + "\n");
      var upperDelimiterRow := Spaces(|Prefix| + |id|) + UpperBranch;
      JoinPrefix(rows, 1);
      result := result + (upperDelimiterRow + "\n");
      var centerRow := Prefix + id;
      JoinPrefix(rows, 2);
      result := result + (centerRow + "\n");
      var lowerDelimiterRow := Spaces(|Prefix| + |id|) + LowerBranch;
      JoinPrefix(rows, 3);
      result := result + (lowerDelimiterRow + "\n");
      var lowerRow := Spaces(|Prefix| + |LowerBranch| + |id|) + lowerChild;
      JoinPrefix(rows, 4);
      result := result + (lowerRow + "\n");
      assert rows[..5] == rows;
    }
  }
}
