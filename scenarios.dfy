/**
 * Worked examples of insertion, the fork search, the line and the fix, computed on the model
 * from an empty storage.
 */
module Scenarios {
  import opened Outcomes
  import opened Items
  import opened Graph
  import opened Insertion
  import opened Repair
  import opened Text

  const Empty: StorageState := StorageState(map[], None, [], None)

  function Rev(id: string, parent: Option<string>): Item
  {
    NewItem(id, None, parent)
  }

  const R: Item := Rev("root", None)
  const A: Item := Rev("A", Some("root"))
  const B: Item := Rev("B", Some("A"))
  const C: Item := Rev("C", Some("A"))

  /** After `add(root)`: the root alone. */
  const Rooted: StorageState := StorageState(map["root" := R], Some("root"), [], None)

  /** After `add(C)` as well: C waits for its parent A. */
  const Waiting: StorageState := StorageState(map["root" := R, "C" := C], Some("root"), ["C"], None)

  /** After `add(A)` as well: A hangs below root and has adopted C. */
  const Adopted: StorageState :=
    StorageState(map["root" := R.(children := ["A"]), "C" := C, "A" := A.(children := ["C"])], Some("root"), [], None)

  /** After `add(B)` as well: B is appended behind C. */
  const Linked4: StorageState :=
    StorageState(map["root" := R.(children := ["A"]), "C" := C, "A" := A.(children := ["C", "B"]), "B" := B],
                 Some("root"), [], None)

  /** `add(root)` on the empty storage: root becomes the root. */
  lemma AddRoot()
    ensures AfterAdd(Empty, R) == (Rooted, Pass) && WellFormed(Rooted)
  {
    AddPreservesWellFormed(Empty, R);
  }

  /** `add(C)` before its parent: C is stored and queued as the only orphan. */
  lemma AddOrphanC()
    requires WellFormed(Rooted)
    ensures AfterAdd(Rooted, C) == (Waiting, Pass)
  {
    assert "root" in Rooted.nodes;
    OrphanCQueued();
    OrphanCWaits();
  }

  /** `_update_parent(C)`: A is not stored, so C is queued. */
  lemma OrphanCQueued()
    ensures AfterUpdateParent(Rooted.(nodes := Rooted.nodes["C" := C]), C) == Waiting
  {
    assert "A" !in Rooted.nodes["C" := C];
  }

  /** `_check_orphans(C)`: nobody waits for C, so nothing changes. */
  lemma OrphanCWaits()
    ensures AfterCheckOrphans(Waiting, "C") == (Waiting, Pass)
  {
    assert ParentsOf(Waiting.nodes, Waiting.orphans) == [Some("A")];
    assert AdoptedIndices([Some("A")], "C", 1) == [];
    assert AppendChildren(Waiting.nodes, "C", Pick(["C"], [])) == Waiting.nodes by {
      assert Pick(["C"], []) == [];
      assert Waiting.nodes["C"].children + [] == Waiting.nodes["C"].children;
    }
  }

  /** `add(A)`: A is linked below root and adopts C, which leaves the orphans list. */
  lemma AddParentA()
    requires WellFormed(Waiting)
    ensures AfterAdd(Waiting, A) == (Adopted, Pass)
  {
    assert "root" in Waiting.nodes;
    ParentALinked();
    ParentAAdopts();
  }

  /** Waiting, with A stored and listed below root. */
  const ALinked: StorageState :=
    StorageState(map["root" := R.(children := ["A"]), "C" := C, "A" := A], Some("root"), ["C"], None)

  /** `_update_parent(A)`: root is stored, so A is appended to its children. */
  lemma ParentALinked()
    ensures AfterUpdateParent(Waiting.(nodes := Waiting.nodes["A" := A]), A) == ALinked
  {
    assert [] + ["A"] == ["A"];
  }

  /** `_check_orphans(A)`: C waits for A, so A adopts it and the orphans list empties. */
  lemma ParentAAdopts()
    ensures AfterCheckOrphans(ALinked, "A") == (Adopted, Pass)
  {
    var parents := ParentsOf(ALinked.nodes, ALinked.orphans);
    assert parents == [Some("A")];
    var idx := AdoptedIndices(parents, "A", 1);
    assert idx == [0];
    AdoptC();
  }

  /** Adopting the orphan at position 0, C, into A's children and deleting it from the list. */
  lemma AdoptC()
    ensures AppendChildren(ALinked.nodes, "A", Pick(["C"], [0])) == Adopted.nodes
    ensures DeleteAscending(["C"], [0]) == Deletion([], false)
  {
    assert Pick(["C"], [0]) == ["C"];
    assert [] + ["C"] == ["C"];
    assert ["C"][..0] + ["C"][1..] == [];
  }

  /** `add(B)` after its parent: B goes behind C in A's children. */
  lemma AddChildB()
    requires WellFormed(Adopted)
    ensures AfterAdd(Adopted, B) == (Linked4, Pass)
  {
    assert "root" in Adopted.nodes;
    ChildBLinked();
    ChildBAdoptsNothing();
  }

  /** `_update_parent(B)`: A is stored, so B is appended behind C. */
  lemma ChildBLinked()
    ensures AfterUpdateParent(Adopted.(nodes := Adopted.nodes["B" := B]), B) == Linked4
  {
    assert ["C"] + ["B"] == ["C", "B"];
  }

  /** `_check_orphans(B)`: nobody waits, so nothing changes. */
  lemma ChildBAdoptsNothing()
    ensures AfterCheckOrphans(Linked4, "B") == (Linked4, Pass)
  {
    assert ParentsOf(Linked4.nodes, Linked4.orphans) == [];
    assert AppendChildren(Linked4.nodes, "B", Pick([], [])) == Linked4.nodes by {
      assert Pick([], []) == [];
      assert Linked4.nodes["B"].children + [] == Linked4.nodes["B"].children;
    }
  }

  /** The states before A arrives keep the storage invariant. */
  lemma EarlyStatesWellFormed()
    ensures WellFormed(Rooted) && WellFormed(Waiting)
  {
    assert Waiting.nodes.Keys == {"root", "C"};
  }

  /** The state after A arrives keeps the storage invariant. */
  lemma AdoptedWellFormed()
    ensures WellFormed(Adopted)
  {
    var n := Adopted.nodes;
    assert n.Keys == {"root", "C", "A"};
    forall k, c | k in n && c in n[k].children
      ensures c in n && n[c].parentRevision == Some(k)
    {
      assert (k == "root" && c == "A") || (k == "A" && c == "C");
    }
  }

  /** The final state keeps the storage invariant. */
  lemma Linked4WellFormed()
    ensures WellFormed(Linked4)
  {
    var n := Linked4.nodes;
    assert n.Keys == {"root", "C", "A", "B"};
    forall k, c | k in n && c in n[k].children
      ensures c in n && n[c].parentRevision == Some(k)
    {
      assert (k == "root" && c == "A") || (k == "A" && (c == "C" || c == "B"));
    }
  }

  /**
   * Out-of-order insertion root, C, A, B, where A's parent is root and B's and C's parent is A:
   * C waits as the only orphan until A arrives and adopts it; B arrives after its parent and
   * is appended behind C, so A's children are C then B. Every call passes, every state keeps
   * the invariant and nothing is left waiting.
   */
  lemma OutOfOrderInsertion()
    ensures WellFormed(Rooted) && WellFormed(Waiting) && WellFormed(Adopted) && WellFormed(Linked4)
    ensures AfterAdd(Empty, R) == (Rooted, Pass) && AfterAdd(Rooted, C) == (Waiting, Pass)
    ensures AfterAdd(Waiting, A) == (Adopted, Pass) && AfterAdd(Adopted, B) == (Linked4, Pass)
  {
    EarlyStatesWellFormed();
    AdoptedWellFormed();
    Linked4WellFormed();
    AddRoot();
    AddOrphanC();
    AddParentA();
    AddChildB();
  }

  /** What the insertion leaves: nothing waiting, A below root, and C ahead of B below A. */
  lemma InsertionOutcome()
    ensures Waiting.orphans == ["C"] && Linked4.orphans == []
    ensures Linked4.nodes["root"].children == ["A"] && Linked4.nodes["A"].children == ["C", "B"]
  {
  }

  /** The chain root, A, B, C, each the only child of the one before. */
  const Chain: StorageState :=
    StorageState(map["root" := R.(children := ["A"]), "A" := A.(children := ["B"]),
                     "B" := B.(parentRevision := Some("A"), children := ["C"]), "C" := Rev("C", Some("B"))],
                 Some("root"), [], None)

  /** The chain keeps the storage invariant. */
  lemma ChainWellFormed()
    ensures WellFormed(Chain)
  {
    var n := Chain.nodes;
    assert n.Keys == {"root", "A", "B", "C"};
    forall k, c | k in n && c in n[k].children
      ensures c in n && n[c].parentRevision == Some(k)
    {
      assert (k == "root" && c == "A") || (k == "A" && c == "B") || (k == "B" && c == "C");
    }
  }

  /** The line of the chain is the four ids in order. */
  lemma ChainLine()
    requires WellFormed(Chain)
    ensures RootLine(Chain) == ["root", "A", "B", "C"]
  {
    var n := Chain.nodes;
    assert |n| == 4 by {
      assert n.Keys == {"root", "A", "B", "C"};
    }
    assert FirstChildChain(n, "C", 1) == ["C"];
    assert FirstChildChain(n, "B", 2) == ["B", "C"];
    assert FirstChildChain(n, "A", 3) == ["A", "B", "C"];
  }

  /** A linear chain: the search finds no fork, and the line is the four ids in order. */
  lemma LinearChain()
    ensures WellFormed(Chain) && FirstMultiparent(Chain) == Ok(None) && RootLine(Chain) == ["root", "A", "B", "C"]
  {
    ChainWellFormed();
    ChainLine();
    var n := Chain.nodes;
    assert ForkIndex(n, ["C"]) == None;
    assert ["B", "C"][1..] == ["C"] && ForkIndex(n, ["B", "C"]) == None;
    assert ["A", "B", "C"][1..] == ["B", "C"] && ForkIndex(n, ["A", "B", "C"]) == None;
    assert ["root", "A", "B", "C"][1..] == ["A", "B", "C"];
  }

  /** A fork at the root F with the two leaves L and M. */
  const Fork: StorageState :=
    StorageState(map["F" := Rev("F", None).(children := ["M", "L"]), "L" := Rev("L", Some("F")), "M" := Rev("M", Some("F"))],
                 Some("F"), [], None)

  /** The same revisions once the fork is fixed: L stays under F and M hangs below L. */
  const Fixed: StorageState :=
    StorageState(map["F" := Rev("F", None).(children := ["L"]), "L" := Rev("L", Some("F")).(children := ["M"]),
                     "M" := Rev("M", Some("L"))],
                 Some("F"), [], Some("M"))

  /** Both states keep the storage invariant. */
  lemma ForkStatesWellFormed()
    ensures WellFormed(Fork) && WellFormed(Fixed)
  {
    var n, m := Fork.nodes, Fixed.nodes;
    assert n.Keys == {"F", "L", "M"} && m.Keys == {"F", "L", "M"};
    forall k, c | k in n && c in n[k].children
      ensures c in n && n[c].parentRevision == Some(k)
    {
      assert k == "F";
    }
    forall k, c | k in m && c in m[k].children
      ensures c in m && m[c].parentRevision == Some(k)
    {
      assert (k == "F" && c == "L") || (k == "L" && c == "M");
    }
  }

  /** The search on the fork state stops at the root F, and F is reachable. */
  lemma ForkFound()
    requires WellFormed(Fork)
    ensures Reachable(Fork, "F") && FirstMultiparent(Fork) == Ok(Some("F"))
  {
    var n := Fork.nodes;
    assert IsRootedPath(Fork, ["F"]);
    assert |n| == 3 by {
      assert n.Keys == {"F", "L", "M"};
    }
    assert FirstChildChain(n, "F", 3) == ["F", "M"];
    assert ForkIndex(n, ["F", "M"]) == Some(0);
  }

  /** The fix of F: the smaller id L stays, M moves below L, which has no children. */
  lemma ForkFixed()
    requires WellFormed(Fork) && Reachable(Fork, "F")
    ensures ApplyFix(Fork, "F") == (Fixed, Ok(true))
  {
    assert Fork.nodes["F"].children == ["M", "L"];
    assert Less("L", "M") && !Less("M", "L");
    ElderLeaf();
    MovedBelowElder();
  }

  /** With M dropped from F, the elder child L is its own last descendant. */
  lemma ElderLeaf()
    ensures LastDescendant(Detach(Fork.nodes, "F", "L"), "L") == "L"
  {
    var detached := Detach(Fork.nodes, "F", "L");
    assert |detached| == 3 by {
      assert detached.Keys == {"F", "L", "M"};
    }
    assert FirstChildChain(detached, "L", 3) == ["L"];
  }

  /** Moving M below L in the detached arena gives the fixed arena. */
  lemma MovedBelowElder()
    ensures Relink(Detach(Fork.nodes, "F", "L"), "M", "L") == Fixed.nodes
  {
    var r := Relink(Detach(Fork.nodes, "F", "L"), "M", "L");
    assert r.Keys == Fixed.nodes.Keys;
    assert r["F"] == Fixed.nodes["F"] && r["L"] == Fixed.nodes["L"] && r["M"] == Fixed.nodes["M"];
  }

  /** After the fix the search finds no fork and the line is F, L, M. */
  lemma FixedLine()
    requires WellFormed(Fixed)
    ensures FirstMultiparent(Fixed) == Ok(None) && RootLine(Fixed) == ["F", "L", "M"]
  {
    var m := Fixed.nodes;
    assert |m| == 3 by {
      assert m.Keys == {"F", "L", "M"};
    }
    assert FirstChildChain(m, "M", 1) == ["M"];
    assert FirstChildChain(m, "L", 2) == ["L", "M"];
    assert FirstChildChain(m, "F", 3) == ["F", "L", "M"];
    assert ForkIndex(m, ["M"]) == None;
    assert ["L", "M"][1..] == ["M"] && ForkIndex(m, ["L", "M"]) == None;
    assert ["F", "L", "M"][1..] == ["L", "M"];
  }

  /**
   * A fork at the root F with children M then L, neither with children: the fix, asked for F
   * or for the first fork, keeps the smaller id L under F, moves M below L, and M is the
   * revision to rewrite; afterwards the search finds no fork and the line is F, L, M.
   */
  lemma FixTwoLeaves()
    ensures WellFormed(Fork) && Reachable(Fork, "F") && FirstMultiparent(Fork) == Ok(Some("F"))
    ensures AfterFix(Fork, Some("F")) == (Fixed, Ok(true)) && AfterFix(Fork, None) == (Fixed, Ok(true))
    ensures WellFormed(Fixed) && FirstMultiparent(Fixed) == Ok(None) && RootLine(Fixed) == ["F", "L", "M"]
  {
    ForkStatesWellFormed();
    ForkFound();
    ForkFixed();
    FixedLine();
  }

  /** A fork whose two children are the same id cannot be fixed, and nothing changes. */
  lemma FixIdenticalChildren()
    ensures var s := StorageState(map["A" := Item("A", None, None, None, ["X", "X"]),
                                      "X" := Item("X", None, Some("A"), None, [])], Some("A"), [], None);
      && WellFormed(s) && Reachable(s, "A") && AfterFix(s, Some("A")) == (s, Err(FixIsImpossible))
  {
    var s := StorageState(map["A" := Item("A", None, None, None, ["X", "X"]),
                              "X" := Item("X", None, Some("A"), None, [])], Some("A"), [], None);
    assert IsRootedPath(s, ["A"]);
  }
}
