# Revision storage of the migration-conflict fixer, in Dafny

This project models the in-memory revision graph of the migration-conflict fixer and proves
what its operations do. `RevisionStorage` is a dict from revision id to `RevisionItem`, plus a
root id, a list of orphans (items whose parent has not been added yet) and the revision to
rewrite. A fork is an item with two or more children. The fixer handles a fork with exactly
two children: it keeps the child with the smaller id under the fork and moves the other child's branch below the last descendant of the kept
child, so the two branches become one line.

Files (one module each):

- `outcomes.dfy` (`Outcomes`): `Option`, `Result`, `Outcome`, and the Python exceptions the
  code can raise, as an `Error` datatype.
- `text.dfy` (`Text`): Python's `<` on `str` as a lexicographic order, and rows joined with
  newlines.
- `revision_item.dfy` (`Items`): `RevisionItem` as a datatype, with `__str__`,
  `assignments_ids_values_map`, `__eq__` and `__lt__`.
- `revision_graph.dfy` (`Graph`):
  - the storage as a value (`StorageState`);
  - the invariant every operation keeps (`WellFormed`);
  - paths from the root, walks along `children[0]`, the line from the root and the fork search.
- `revision_add.dfy` (`Insertion`): `_add`, `_update_parent` and `_check_orphans` as functions
  on the state, with what insertion guarantees.
- `revision_fix.dfy` (`Repair`): `fix_revision_conflict` as a function on the state, with what
  the fix guarantees.
- `revision_conflict.dfy` (`Conflict`): `get_conflict_place_str` as a function, with how its
  rows line up.
- `revision_storage.dfy` (`Storage`): the class `RevisionStorage`. It has the dict, the root,
  the orphans list and the revision to rewrite as fields, and its methods follow the source
  loop by loop. Each method is proved to compute the function above that specifies it.
- `scenarios.dfy` (`Scenarios`): worked examples from an empty storage: out-of-order
  insertion, a linear chain, the fix of a two-leaf fork, and a fork with identical children.

How Python's behaviour is modelled:

- Exceptions become `Err(...)` results:
  - `AttributeError`: `root_revision` is read before the first `add`;
  - `KeyError`: a missing id;
  - `UnpackError`: a fork without exactly two children is unpacked into two names;
  - `FixIsImpossible`;
  - `IndexError`: raised by the orphan deletion;
  - `TypeError`: `<` between two dates when one of them is `None`.
- An empty id is falsy in Python, and that is modelled: it ends the walk of
  `find_first_multiparent`, and `fix_revision_conflict` and `get_conflict_place_str` fall back
  to the search when the id they are given is empty.
- The walks along `children[0]` terminate because a path from the root never repeats an id
  under the invariant (`Graph.RootedPathDistinct`).

Behaviour of the code that a reader may not expect, kept as it is:

- Out-of-order insertion of root, C, A, B (B and C below A, A below root) gives
  `A.children == ["C", "B"]` (`Scenarios.OutOfOrderInsertion`). C waits as an orphan until A
  is added and adopts it. B arrives after A is stored, so it is never an orphan and is
  appended behind C. The children follow the order in which each child got linked, not the
  order of the ids.
- The adopted orphans are not all removed from the orphans list when more than one is adopted
  at once (see Findings).
- There is no duplicate-id error and no dedicated error for a fork with more than two children.
  A duplicate id is excluded by a precondition. A fork without exactly two children fails when
  its children are unpacked (`UnpackError`).

## Model

| member | source | states |
|---|---|---|
| Items.NewItem | src/revision_storage/revision_item.py:10-16 | a new item carries the given id, file, parent and date; parent and date default to None and children start empty |
| Items.Str | src/revision_storage/revision_item.py:18-23 | the rendering is the id, " (", the formatted date or "date is unknown", then ")" |
| Items.StrIgnoresLinks | src/revision_storage/revision_item.py:18-23 | the rendering depends only on the id and the date, never on the parent or the children |
| Items.AssignmentsIdsValuesMap | src/revision_storage/revision_item.py:29-34 | the map has exactly the keys "revision" and "down_revision", bound to the id and the parent id |
| Items.Eq | src/revision_storage/revision_item.py:36-39 | equal items are `==`; items that are `==` are never `<` each other either way |
| Items.EqIgnoresIdentity | src/revision_storage/revision_item.py:36-39 | items with the same date compare equal and neither is less than the other, whatever their ids and children |
| Items.Lt | src/revision_storage/revision_item.py:41-44 | `<` raises TypeError exactly when one of the two dates is missing |
| Items.DatedTrichotomy | src/revision_storage/revision_item.py:36-44 | between two dated items exactly one of `a < b`, `b < a`, `a == b` holds |
| Items.LtTransitive | src/revision_storage/revision_item.py:41-44 | `<` on dated items is transitive |
| Text.Less | src/revision_storage/migxer_revision_storage.py:135 | the order on ids (Python's `<` on `str`): only different ids are ordered, and a proper prefix comes before the longer id |
| Text.LessIrreflexive | src/revision_storage/migxer_revision_storage.py:135 | no id is greater than itself |
| Text.LessAsymmetric | src/revision_storage/migxer_revision_storage.py:135 | `left > right` and `right > left` never both hold |
| Text.LessTransitive | src/revision_storage/migxer_revision_storage.py:135 | the order on ids is transitive |
| Text.LessTotal | src/revision_storage/migxer_revision_storage.py:135 | two different ids are always ordered one way or the other |
| Graph.RootedPathDistinct | src/revision_storage/migxer_revision_storage.py:152-164 | under the storage invariant a path down from the root never repeats an id, so the walks along `children[0]` end |
| Graph.RootLine | src/revision_storage/migxer_revision_storage.py:158-164 | every id on the line from the root is stored |
| Graph.RootLineFacts | src/revision_storage/migxer_revision_storage.py:158-164 | the line starts at the root, moves to `children[0]` at every step, ends at a childless item and repeats no id |
| Graph.LastDescendant | src/revision_storage/migxer_revision_storage.py:152-156 | the last descendant is stored; a childless item is its own last descendant; the walk stops at an item with children only after repeating an id |
| Graph.ForkIndex | src/revision_storage/migxer_revision_storage.py:103-111 | when it gives a position, the line is non-empty up to it, every earlier item has exactly one child and the item there has two or more; when it gives none, no position has that property |
| Graph.FirstMultiparent | src/revision_storage/migxer_revision_storage.py:100-111 | AttributeError exactly before the first add; otherwise the result is the first item on the line with two or more children, after only single-child items, and None when there is none |
| Graph.FirstMultiparentIsFork | src/revision_storage/migxer_revision_storage.py:100-111 | the fork found is a stored, non-empty id with at least two children, reached from the root along `children[0]` |
| Graph.NoForkMeansLinear | src/revision_storage/migxer_revision_storage.py:100-111 | when no id on the line is empty, no fork is found exactly when every item on the line except the last has a single child |
| Insertion.AdoptedIndices | src/revision_storage/migxer_revision_storage.py:49-55 | the collected positions are ascending, each names an orphan whose parent is the new item, and every such orphan is collected |
| Insertion.DeleteAscending | src/revision_storage/migxer_revision_storage.py:57-58 | the deletion loop as written leaves only ids that were in the list, and never lengthens it |
| Insertion.Unadopted | src/revision_storage/migxer_revision_storage.py:48-58 | the intended remaining orphans: exactly those whose parent is not the new item, one for each orphan not adopted |
| Insertion.UnadoptedAtMostOne | src/revision_storage/migxer_revision_storage.py:57-58 | with no adoption the remaining orphans are the whole list, and with one adoption at position i they are the list without position i |
| Insertion.DeleteAscendingAgrees | src/revision_storage/migxer_revision_storage.py:57-58 | when at most one orphan is adopted, the deletion as written removes exactly the adopted one and raises nothing |
| Insertion.DeleteAscendingMisbehaves | src/revision_storage/migxer_revision_storage.py:57-58 | on the lists ["x", "y"] and ["x", "y", "z"], deleting positions 0 and 1 raises IndexError, or removes "z" and keeps the adopted "y"; deleting positions 0 and 2 raises IndexError |
| Insertion.DeleteAscendingKeepsAdopted | src/revision_storage/migxer_revision_storage.py:48-58 | whenever two or more orphans are adopted at once, the second adopted orphan is still in the list after the deletion; with distinct ids the list left is then never the intended one |
| Insertion.DeleteAscendingKeepsOrder | src/revision_storage/migxer_revision_storage.py:57-58 | deleting one position removes that element and keeps the others in order |
| Insertion.AfterUpdateParent | src/revision_storage/migxer_revision_storage.py:41-46 | when the parent is stored it gains the id at the end of its children and nothing else changes; otherwise the id is appended to the orphans and the items are unchanged |
| Insertion.AfterCheckOrphans | src/revision_storage/migxer_revision_storage.py:48-58 | only the new item's children change, by appending after its old ones; the orphans left were all orphans before; the outcome is a pass or IndexError |
| Insertion.AfterAdd | src/revision_storage/migxer_revision_storage.py:31-39 | the ids stored grow by the new id, the first add sets the root and later ones keep it, and the item is stored with the id, parent and date it was given |
| Insertion.AddFirst | src/revision_storage/migxer_revision_storage.py:31-36 | the first add makes the item the root, stores it alone, starts an empty orphans list and links nothing |
| Insertion.StoreKeepsWellFormed | src/revision_storage/migxer_revision_storage.py:37 | storing a fresh, childless item keeps the invariant |
| Insertion.UpdateParentKeepsWellFormed | src/revision_storage/migxer_revision_storage.py:41-46 | linking a stored item below its parent, or queueing it as an orphan, keeps the invariant |
| Insertion.CheckOrphansKeepsWellFormed | src/revision_storage/migxer_revision_storage.py:48-58 | adoption keeps the invariant, even when its deletion goes wrong |
| Insertion.AddPreservesWellFormed | src/revision_storage/migxer_revision_storage.py:31-39 | every add of a fresh, childless item keeps the invariant |
| Insertion.AddStoresAndLinks | src/revision_storage/migxer_revision_storage.py:37-46 | a later add stores the item under its id and keeps the root; when the parent is stored it gains the id at the end of its children; every other stored item is unchanged |
| Insertion.WaitingOrphans | src/revision_storage/migxer_revision_storage.py:41-46 | after linking, the orphans list is the old one, followed by the new id exactly when its parent is not stored |
| Insertion.AddAdoptsChildren | src/revision_storage/migxer_revision_storage.py:48-55 | the new item's children become its own id when it names itself as parent, followed by every waiting orphan whose parent it is, in orphans-list order |
| Insertion.CheckOrphansAtMostOne | src/revision_storage/migxer_revision_storage.py:48-58 | with at most one adoption, `_check_orphans` raises nothing and leaves exactly the non-adopted orphans |
| Insertion.AddAdoptsOrphans | src/revision_storage/migxer_revision_storage.py:37-58 | with at most one adoption, add raises nothing; the orphans left are the non-adopted old ones, followed by the new id when its parent is missing |
| Repair.Elder | src/revision_storage/migxer_revision_storage.py:135-140 | the elder is one of the two children, and neither child is smaller than it |
| Repair.Younger | src/revision_storage/migxer_revision_storage.py:135-140 | the younger is one of the two children, and it is smaller than neither |
| Repair.ElderBeforeYounger | src/revision_storage/migxer_revision_storage.py:135-141 | of two different children the elder is strictly smaller than the younger, whichever order they are listed in |
| Repair.Detach | src/revision_storage/migxer_revision_storage.py:135-141 | deleting the younger child leaves the fork with only the elder one; nothing else changes, and the links stay consistent |
| Repair.DetachKeepsWellFormed | src/revision_storage/migxer_revision_storage.py:135-141 | dropping the younger child from the fork keeps the invariant |
| Repair.ApplyFix | src/revision_storage/migxer_revision_storage.py:128-150 | UnpackError exactly when the fork does not have two children; FixIsImpossible exactly when they are equal; an error leaves the state unchanged; success returns True and keeps the root and the orphans |
| Repair.Relink | src/revision_storage/migxer_revision_storage.py:148-149 | only the younger child's parent and the last descendant's children change, the latter by appending the younger child |
| Repair.AfterFix | src/revision_storage/migxer_revision_storage.py:124-150 | False, with no change, exactly when no fork is found; AttributeError exactly when no id is given before the first add; KeyError exactly when a non-empty id is given that is not stored, which includes any id given before the first add; errors change nothing |
| Repair.FixedNodes | src/revision_storage/migxer_revision_storage.py:128-150 | item by item, the fix changes only the fork's children, the younger child's parent and the last descendant's children |
| Repair.DetachUnlists | src/revision_storage/migxer_revision_storage.py:135-141 | once the fork keeps only the elder child, no item lists the younger one |
| Repair.RelinkKeepsLinked | src/revision_storage/migxer_revision_storage.py:148-149 | re-parenting an item that nobody lists keeps the links consistent |
| Repair.RelinkKeepsWellFormed | src/revision_storage/migxer_revision_storage.py:143-149 | re-parenting the younger child keeps the invariant |
| Repair.FixPreservesWellFormed | src/revision_storage/migxer_revision_storage.py:128-150 | the fix of a reachable fork keeps the invariant |
| Repair.AfterFixPreservesWellFormed | src/revision_storage/migxer_revision_storage.py:115-150 | every outcome of `fix_revision_conflict` keeps the invariant |
| Repair.ElderBranch | src/revision_storage/migxer_revision_storage.py:145-147 | the elder branch is the same with or without the younger child, ends at a childless item and continues the path to the fork without repeating an id |
| Repair.YoungerBranch | src/revision_storage/migxer_revision_storage.py:145-149 | the younger branch ends at a childless item and continues the path to the fork without repeating an id |
| Repair.Descendant | src/revision_storage/migxer_revision_storage.py:145-149 | the last descendant of the elder child is childless and is neither the fork nor the younger child |
| Repair.FixRelinksYounger | src/revision_storage/migxer_revision_storage.py:128-150 | success returns True; the fork keeps only the smaller child; the younger child's parent becomes the elder's last descendant, whose only child it becomes; the younger child is the revision to rewrite; every other item, the root and the orphans are unchanged |
| Repair.LineAfterFix | src/revision_storage/migxer_revision_storage.py:145-164 | after fixing a fork reached along `children[0]`, the line is the path to the fork, then the whole elder branch, then the whole younger branch |
| Repair.FixFirstFork | src/revision_storage/migxer_revision_storage.py:124-150 | with no argument, fixing a two-child fork returns True, keeps the invariant, and makes the line the old line up to the fork, then the elder branch, then the younger branch |
| Conflict.ConflictRows | src/revision_storage/migxer_revision_storage.py:69-96 | the picture has five rows |
| Conflict.ConflictPlace | src/revision_storage/migxer_revision_storage.py:60-98 | AttributeError exactly when no id is given before the first add; KeyError when no fork is found or a non-empty id is given that is not stored (also before the first add); UnpackError exactly when the fork does not have two children; otherwise the five rows of that fork, each ending in a newline |
| Conflict.ConflictRowsAligned | src/revision_storage/migxer_revision_storage.py:69-96 | the middle row is the prefix and the fork id; "/" and "\" sit in the same column, one past its end, with blanks before and one blank after, which ends the branch row; both children start right after, behind blanks |
| Conflict.ConflictRowsNoNewline | src/revision_storage/migxer_revision_storage.py:75-96 | no row contains a newline when the fork id and the children's renderings contain none |
| Conflict.ConflictPlaceReadsBack | src/revision_storage/migxer_revision_storage.py:60-98 | cutting the returned text at its newlines gives back the five rows |
| Storage.RevisionStorage.constructor | src/revision_storage/migxer_revision_storage.py:15 | a new storage is empty, has no root and keeps the invariant |
| Storage.RevisionStorage.Add | src/revision_storage/migxer_revision_storage.py:16-29 | without an item, one is built from the other arguments; the new state is the specified add of that item, and the invariant is kept |
| Storage.RevisionStorage.AddItem | src/revision_storage/migxer_revision_storage.py:31-39 | the new state and outcome are those of the specified add, and the invariant is kept |
| Storage.RevisionStorage.UpdateParent | src/revision_storage/migxer_revision_storage.py:41-46 | the new state is the specified linking or queueing |
| Storage.RevisionStorage.CheckOrphans | src/revision_storage/migxer_revision_storage.py:48-58 | the new state and outcome are those of the specified adoption, including the deletion as written |
| Storage.RevisionStorage.AdoptOrphans | src/revision_storage/migxer_revision_storage.py:49-55 | the first loop collects exactly the adopted positions and appends those orphans to the new item's children in list order |
| Storage.RevisionStorage.DeleteAdopted | src/revision_storage/migxer_revision_storage.py:57-58 | the second loop leaves the orphans list, and raises IndexError, exactly as the ascending deletion does |
| Storage.RevisionStorage.FindFirstMultiparent | src/revision_storage/migxer_revision_storage.py:100-111 | the loop returns the specified fork search result |
| Storage.RevisionStorage.FixRevisionConflict | src/revision_storage/migxer_revision_storage.py:115-150 | the new state and result are the specified fix, and the invariant is kept |
| Storage.RevisionStorage.FixFork | src/revision_storage/migxer_revision_storage.py:128-150 | on a stored, reachable fork, the new state and result are the specified fix of that fork |
| Storage.RevisionStorage.AttachYounger | src/revision_storage/migxer_revision_storage.py:142-149 | the younger child becomes the revision to rewrite and is re-parented below the elder's last descendant; the root and the orphans are unchanged |
| Storage.RevisionStorage.ElderReachable | src/revision_storage/migxer_revision_storage.py:135-147 | after the younger child is deleted, the elder child is still reachable from the root and the invariant holds |
| Storage.RevisionStorage.GetLastDescendant | src/revision_storage/migxer_revision_storage.py:152-156 | KeyError exactly for an id that is not stored; otherwise the childless item reached along `children[0]` |
| Storage.RevisionStorage.GetRevisionsLine | src/revision_storage/migxer_revision_storage.py:158-164 | AttributeError exactly before the first add; otherwise the line from the root along `children[0]`, ending at a childless item, with no id twice |
| Storage.RevisionStorage.GetConflictPlaceStr | src/revision_storage/migxer_revision_storage.py:60-98 | the result is the specified picture of the fork, errors included |
| Storage.RevisionStorage.ConflictPicture | src/revision_storage/migxer_revision_storage.py:64-98 | adding the rows one by one, each with its newline, gives the joined picture |
| Scenarios.OutOfOrderInsertion | src/revision_storage/migxer_revision_storage.py:31-58 | inserting root, C, A, B passes every time and keeps the invariant: C waits as an orphan until A adopts it, and B is appended behind C |
| Scenarios.LinearChain | src/revision_storage/migxer_revision_storage.py:100-111 | on the chain root, A, B, C, no fork is found and the line is the four ids in order |
| Scenarios.FixTwoLeaves | src/revision_storage/migxer_revision_storage.py:115-150 | fixing a root fork with leaves M and L keeps L, moves M below L and marks M for rewrite; afterwards no fork is found and the line is F, L, M |
| Scenarios.FixIdenticalChildren | src/revision_storage/migxer_revision_storage.py:132-133 | a fork whose two children are the same id raises FixIsImpossible and changes nothing |

## Left out

- File I/O is not modelled: reading and rewriting migration files, `serialize_to_revision_file`, `wtite_fix_to_file`, the file parser, the `ast` visitor and transformer, and the command line.
- `strftime` is not modelled. The formatted date is a parameter, a function from `DateTime` to `string`, because it is library formatting.
- The `NotImplemented` branch of `__eq__` and `__lt__` is not modelled: both operands are always items here.
- Re-adding an id that is already stored is excluded by a precondition. The code silently overwrites the item and links it again, which breaks the storage's own bookkeeping.
- `Storage.RevisionStorage.Add` and `Storage.RevisionStorage.AddItem`: an item passed in must have no children, because a pre-filled children list is never checked against the stored items. The code accepts any list.
- `Storage.RevisionStorage.FixRevisionConflict`: an explicit fork id that is stored must be reachable from the root. This leaves out forks outside the root's tree. On a cycle there the Python walk to the last descendant never ends. A fork inside an acyclic orphan subtree (an orphan whose parent was never added, with two children) is fixed by the code without trouble, but the model does not cover it. The fork search only ever returns reachable forks.
- A revision id of `None` is not modelled. Ids are strings; only the parent id is optional.
- `ParentNotFoundException` is never raised by the code, so it is not modelled.
- Object identity is not modelled. Items are values in the arena, and `revision_to_rewrite` holds the younger child's id, not the object.
- Before the first `add`, `orphans` and `root_revision` are unset attributes in Python. The model starts them as an empty list and `None`; reading the root before the first `add` is the AttributeError path.
- Ordering forks by date, as planned in the TODO comment of `fix_revision_conflict`, is not implemented by the code and so is not modelled.

## Findings

| source | as written | input that shows it | evidently intended | confidence | as-written member | corrected member |
|---|---|---|---|---|---|---|
| src/revision_storage/migxer_revision_storage.py:57-58 | the collected positions are deleted in ascending order, and each deletion shifts the later ones down | orphans `["x", "y"]`, both waiting for `p`, then `add(p)`: IndexError after removing only `x`; with orphans `["x", "y", "z"]` where `x` and `y` wait for `p`: `z` is removed and `y` stays | every adopted orphan leaves the list, and the others keep their order | not executed | Insertion.DeleteAscendingMisbehaves, Insertion.DeleteAscendingKeepsAdopted | Insertion.DeleteAscendingAgrees |
