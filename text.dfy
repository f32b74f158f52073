/** Python string operations the revision storage relies on. */
module Text {

  /** Python's `a < b` on `str`: lexicographic by code point, a proper prefix coming first. */
  predicate Less(a: string, b: string)
    ensures Less(a, b) ==> a != b
    ensures |a| < |b| && a == b[..|a|] ==> Less(a, b)
  {
    if |a| == 0 then |b| > 0
    else if |b| == 0 then false
    else if a[0] != b[0] then a[0] < b[0]
    else Less(a[1..], b[1..])
  }

  lemma {:induction false} LessIrreflexive(a: string)
    ensures !Less(a, a)
  {
    if |a| > 0 {
      LessIrreflexive(a[1..]);
    }
  }

  lemma {:induction false} LessAsymmetric(a: string, b: string)
    ensures Less(a, b) ==> !Less(b, a)
  {
    if |a| > 0 && |b| > 0 && a[0] == b[0] {
      LessAsymmetric(a[1..], b[1..]);
    }
  }

  lemma {:induction false} LessTransitive(a: string, b: string, c: string)
    ensures Less(a, b) && Less(b, c) ==> Less(a, c)
  {
    if |a| > 0 && |b| > 0 && |c| > 0 && a[0] == b[0] && b[0] == c[0] {
      LessTransitive(a[1..], b[1..], c[1..]);
    }
  }

  /** Two different strings are always ordered one way or the other. */
  lemma {:induction false} LessTotal(a: string, b: string)
    ensures a == b || Less(a, b) || Less(b, a)
  {
    if |a| > 0 && |b| > 0 && a[0] == b[0] {
      LessTotal(a[1..], b[1..]);
      if a[1..] == b[1..] {
        assert a == [a[0]] + a[1..] && b == [b[0]] + b[1..];
      }
    }
  }

  /** Python's `" " * n`. */
  function Spaces(n: nat): (s: string)
    ensures |s| == n && forall i :: 0 <= i < n ==> s[i] == ' '
  {
    seq(n, _ => ' ')
  }

  /** The text made of the given rows, each followed by a newline. */
  function Join(rows: seq<string>): string
  {
    if rows == [] then "" else rows[0] + "\n" + Join(rows[1..])
  }

  /** Adding a row adds it, and its newline, at the end of the text. */
  lemma {:induction false} JoinSnoc(rows: seq<string>, row: string)
    ensures Join(rows + [row]) == Join(rows) + row + "\n"
  {
    if rows != [] {
      assert (rows + [row])[1..] == rows[1..] + [row];
      JoinSnoc(rows[1..], row);
    } else {
      assert Join([row]) == row + "\n" + Join([]);
    }
  }

  /** Joining one more row of a list extends the text of the shorter prefix. */
  lemma JoinPrefix(rows: seq<string>, k: nat)
    requires k < |rows|
    ensures Join(rows[..k + 1]) == Join(rows[..k]) + rows[k] + "\n"
    ensures Join(rows[..k + 1]) == Join(rows[..k]) + (rows[k] + "\n")
  {
    assert rows[..k + 1] == rows[..k] + [rows[k]];
    JoinSnoc(rows[..k], rows[k]);
  }

  /** Index of the first newline of `t`, or `|t|` when there is none. */
  function FirstNewline(t: string): (i: nat)
    ensures i <= |t|
    ensures forall j :: 0 <= j < i ==> t[j] != '\n'
    ensures i < |t| ==> t[i] == '\n'
  {
    if t == [] then 0 else if t[0] == '\n' then 0 else 1 + FirstNewline(t[1..])
  }

  /** The rows of a text, read back by cutting at each newline. */
  function Rows(t: string): seq<string>
    decreases |t|
  {
    if t == [] then []
    else
      var i := FirstNewline(t);
      if i == |t| then [t] else [t[..i]] + Rows(t[i + 1..])
  }

  ghost predicate NoNewline(s: string)
  {
    forall i :: 0 <= i < |s| ==> s[i] != '\n'
  }

  /** Reading back a joined text yields the rows it was made of. */
  lemma {:induction false} RowsOfJoin(rows: seq<string>)
    requires forall k :: 0 <= k < |rows| ==> NoNewline(rows[k])
    ensures Rows(Join(rows)) == rows
  {
    if rows != [] {
      var t := Join(rows);
      var rest := Join(rows[1..]);
      assert t == rows[0] + ("\n" + rest);
      FirstNewlineAfter(rows[0], rest);
      assert t[..|rows[0]|] == rows[0];
      assert t[|rows[0]| + 1..] == rest;
      RowsOfJoin(rows[1..]);
    }
  }

  lemma {:induction false} FirstNewlineAfter(row: string, rest: string)
    requires NoNewline(row)
    ensures FirstNewline(row + ("\n" + rest)) == |row|
  {
    if row != [] {
      assert (row + ("\n" + rest))[1..] == row[1..] + ("\n" + rest);
      FirstNewlineAfter(row[1..], rest);
    }
  }
}
