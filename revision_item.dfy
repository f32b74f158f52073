/** One migration revision (`RevisionItem`): its id, its parent's id, its date and its children. */
module Items {
  import opened Outcomes

  /** A naive `datetime`, ordered field by field from the year down to the microsecond. */
  datatype DateTime = DateTime(year: int, month: int, day: int, hour: int, minute: int, second: int, microsecond: int)

  /** `a < b` between two datetimes: the earlier instant comes first. */
  predicate Before(a: DateTime, b: DateTime)
  {
    if a.year != b.year then a.year < b.year
    else if a.month != b.month then a.month < b.month
    else if a.day != b.day then a.day < b.day
    else if a.hour != b.hour then a.hour < b.hour
    else if a.minute != b.minute then a.minute < b.minute
    else if a.second != b.second then a.second < b.second
    else a.microsecond < b.microsecond
  }

  /**
   * A revision. `children` lists the ids of the revisions attached below it, in the order they
   * were attached; the storage keeps it up to date.
   */
  datatype Item = Item(
    revision: string,
    originalFilepath: Option<string>,
    parentRevision: Option<string>,
    revisionDate: Option<DateTime>,
    children: seq<string>)

  /** The dataclass constructor: parent and date default to None, children to a fresh empty list. */
  function NewItem(
    revision: string,
    originalFilepath: Option<string>,
    parentRevision: Option<string> := None,
    revisionDate: Option<DateTime> := None): (it: Item)
    ensures it.revision == revision && it.originalFilepath == originalFilepath
    ensures it.parentRevision == parentRevision && it.revisionDate == revisionDate
    ensures it.children == []
  {
    Item(revision, originalFilepath, parentRevision, revisionDate, [])
  }

  const UnknownDate: string := "date is unknown"

  /**
   * `str(item)`: the id, then the date in parentheses, or "date is unknown" when there is none.
   * `strftime` stands for `date.strftime("%Y-%m-%d %H:%M:%S")`, which is not modelled.
   */
  function Str(item: Item, strftime: DateTime -> string): (r: string)
    ensures |r| > |item.revision| + 2 && r[..|item.revision|] == item.revision
    ensures r[|item.revision|..|item.revision| + 2] == " (" && r[|r| - 1] == ')'
    ensures item.revisionDate.None? ==> r[|item.revision| + 2..|r| - 1] == UnknownDate
    ensures item.revisionDate.Some? ==> r[|item.revision| + 2..|r| - 1] == strftime(item.revisionDate.value)
  {
    var date := if item.revisionDate.Some? then strftime(item.revisionDate.value) else UnknownDate;
    item.revision + " (" + date + ")"
  }

  /** The rendering depends on the id and the date only, never on the parent or the children. */
  lemma StrIgnoresLinks(a: Item, b: Item, strftime: DateTime -> string)
    requires a.revision == b.revision && a.revisionDate == b.revisionDate
    ensures Str(a, strftime) == Str(b, strftime)
  {
  }

  /** The values written back into a migration file: its own id and its parent's id. */
  function AssignmentsIdsValuesMap(item: Item): (m: map<string, Option<string>>)
    ensures m.Keys == {"revision", "down_revision"}
    ensures m["revision"] == Some(item.revision) && m["down_revision"] == item.parentRevision
  {
    map["revision" := Some(item.revision), "down_revision" := item.parentRevision]
  }

  /** `a == b` on items: only the dates are compared (two absent dates are equal). */
  predicate Eq(a: Item, b: Item)
    ensures a == b ==> Eq(a, b)
    ensures Eq(a, b) ==> Lt(a, b) != Ok(true) && Lt(b, a) != Ok(true)
  {
    a.revisionDate == b.revisionDate
  }

  /** `a < b` on items: compares the dates; raises TypeError when either date is absent. */
  function Lt(a: Item, b: Item): (r: Result<bool>)
    ensures r.Err? <==> a.revisionDate.None? || b.revisionDate.None?
    ensures r.Err? ==> r.error == TypeError
  {
    if a.revisionDate.Some? && b.revisionDate.Some? then Ok(Before(a.revisionDate.value, b.revisionDate.value))
    else Err(TypeError)
  }

  /** Revisions with different ids, parents and children but the same date compare equal. */
  lemma EqIgnoresIdentity(a: Item, b: Item)
    requires a.revisionDate == b.revisionDate
    ensures Eq(a, b) && Lt(a, b) != Ok(true) && Lt(b, a) != Ok(true)
  {
  }

  /** Between two dated items exactly one of `a < b`, `b < a` and `a == b` holds. */
  lemma DatedTrichotomy(a: Item, b: Item)
    requires a.revisionDate.Some? && b.revisionDate.Some?
    ensures Lt(a, b).Ok? && Lt(b, a).Ok?
    ensures (Lt(a, b).value && !Lt(b, a).value && !Eq(a, b))
         || (!Lt(a, b).value && Lt(b, a).value && !Eq(a, b))
         || (!Lt(a, b).value && !Lt(b, a).value && Eq(a, b))
  {
  }

  /** `<` on dated items is transitive. */
  lemma LtTransitive(a: Item, b: Item, c: Item)
    requires Lt(a, b) == Ok(true) && Lt(b, c) == Ok(true)
    ensures Lt(a, c) == Ok(true)
  {
  }
}
