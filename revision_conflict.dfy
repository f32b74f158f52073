/**
 * `get_conflict_place_str`: the five-row picture of a fork and its two children, as a function
 * on the storage state, and how its rows line up.
 */
module Conflict {
  import opened Outcomes
  import opened Items
  import opened Graph
  import opened Text

  const Prefix: string := "<...> - "
  const UpperBranch: string := " / "
  const LowerBranch: string := " \\ "

  /**
   * The rows of the picture for fork `m` whose children render as `upper` and `lower`: each
   * child is indented past the branch symbol, the branch rows are indented past the prefix
   * and the fork's id, and the middle row is the prefix followed by the fork's id.
   */
  function ConflictRows(m: string, upper: string, lower: string): (rows: seq<string>)
    ensures |rows| == 5
  {
    [ Spaces(|Prefix| + |UpperBranch| + |m|) + upper,
      Spaces(|Prefix| + |m|) + UpperBranch,
      Prefix + m,
      Spaces(|Prefix| + |m|) + LowerBranch,
      Spaces(|Prefix| + |LowerBranch| + |m|) + lower ]
  }

  /** The picture of fork `m`, drawn from the renderings of its two children. */
  function Picture(s: StorageState, m: string, strftime: DateTime -> string): string
    requires Linked(s.nodes) && m in s.nodes && |s.nodes[m].children| == 2
  {
    var ch := s.nodes[m].children;
    assert ch[0] in ch && ch[1] in ch;
    Join(ConflictRows(m, Str(s.nodes[ch[0]], strftime), Str(s.nodes[ch[1]], strftime)))
  }

  /**
   * `get_conflict_place_str(multiparent)` on a state. Without a non-empty id the fork search
   * picks the fork (its errors propagate; no fork at all is a KeyError on `self[None]`); an
   * id that is not stored is a KeyError; a fork without exactly two children cannot be
   * unpacked. Otherwise the picture, each row followed by a newline.
   */
  function ConflictPlace(s: StorageState, multiparent: Option<string>, strftime: DateTime -> string): (r: Result<string>)
    requires WellFormed(s)
    ensures (multiparent.None? || multiparent.value == "") && s.root.None? ==> r == Err(AttributeError)
    ensures (multiparent.None? || multiparent.value == "") && FirstMultiparent(s) == Ok(None) ==> r == Err(KeyError)
    ensures multiparent.Some? && multiparent.value != "" && multiparent.value !in s.nodes ==> r == Err(KeyError)
    ensures multiparent.Some? && multiparent.value != "" && multiparent.value in s.nodes ==>
      (r == Err(UnpackError) <==> |s.nodes[multiparent.value].children| != 2)
    ensures r.Ok? ==> exists m :: m in s.nodes && |s.nodes[m].children| == 2 && r.value == Picture(s, m, strftime)
    // The fork drawn is the given id, or else the one the search finds; when it is stored, the
    // picture is drawn exactly when it has two children.
    ensures var given := multiparent.Some? && multiparent.value != "";
      var found := FirstMultiparent(s);
      var m := if given then multiparent.value else if found.Ok? && found.value.Some? then found.value.value else "";
      (given || (found.Ok? && found.value.Some?)) && m in s.nodes ==>
        && (|s.nodes[m].children| != 2 ==> r == Err(UnpackError))
        && (|s.nodes[m].children| == 2 ==> r == Ok(Picture(s, m, strftime)))
  {
    var target :=
      if multiparent.Some? && multiparent.value != "" then Ok(multiparent)
      else FirstMultiparent(s);
    if target.Err? then Err(target.error)
    else if target.value.None? || target.value.value !in s.nodes then Err(KeyError)
    else
      var m := target.value.value;
      if |s.nodes[m].children| != 2 then Err(UnpackError)
      else Ok(Picture(s, m, strftime))
  }

  /**
   * The picture lines up: the branch symbols `/` and `\` sit in the same column, one past the
   * end of the fork's id in the middle row, and both children start right after them.
   */
  lemma ConflictRowsAligned(m: string, upper: string, lower: string)
    ensures var rows := ConflictRows(m, upper, lower);
      var col := |Prefix| + |m|;
      && rows[2] == Prefix + m && |rows[2]| == col
      && |rows[1]| == |rows[3]| == col + 3
      && rows[1][col + 1] == '/' && rows[3][col + 1] == '\\'
      && rows[1][col + 2] == ' ' && rows[3][col + 2] == ' '
      && (forall i :: 0 <= i <= col ==> rows[1][i] == ' ' && rows[3][i] == ' ')
      && rows[0][col + 3..] == upper && rows[4][col + 3..] == lower
      && (forall i :: 0 <= i < col + 3 ==> rows[0][i] == ' ' && rows[4][i] == ' ')
  {
    var rows := ConflictRows(m, upper, lower);
    var col := |Prefix| + |m|;
    assert rows[1][col..] == UpperBranch && rows[3][col..] == LowerBranch;
  }

  /** The picture's rows have no newline when the fork's id and the children's renderings have none. */
  lemma ConflictRowsNoNewline(m: string, upper: string, lower: string)
    requires NoNewline(m) && NoNewline(upper) && NoNewline(lower)
    ensures forall k :: 0 <= k < 5 ==> NoNewline(ConflictRows(m, upper, lower)[k])
  {
    var rows := ConflictRows(m, upper, lower);
    forall k, i | 0 <= k < 5 && 0 <= i < |rows[k]|
      ensures rows[k][i] != '\n'
    {
      if k == 2 && i >= |Prefix| {
        assert rows[k][i] == m[i - |Prefix|];
      } else if (k == 0 || k == 4) && i >= |Prefix| + 3 + |m| {
        assert rows[k][i] == (if k == 0 then upper else lower)[i - |Prefix| - 3 - |m|];
      }
    }
  }

  /** Cutting the returned text at its newlines gives back the five rows of the picture. */
  lemma ConflictPlaceReadsBack(m: string, upper: string, lower: string)
    requires NoNewline(m) && NoNewline(upper) && NoNewline(lower)
    ensures Rows(Join(ConflictRows(m, upper, lower))) == ConflictRows(m, upper, lower)
  {
    ConflictRowsNoNewline(m, upper, lower);
    RowsOfJoin(ConflictRows(m, upper, lower));
  }
}
