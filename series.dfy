/** The few table operations the dashboard relies on, stated over plain
    sequences: boolean-mask row selection (`df[mask]`) and `Series.unique()`.
    Both are generic in the row type, so the launch table and its columns
    share one definition of each. */
module Series {

  /** No element occurs twice. */
  predicate Distinct<T(==)>(s: seq<T>) {
    forall i, j :: 0 <= i < j < |s| ==> s[i] != s[j]
  }

  /** Boolean-mask row selection `rows[mask]`: the rows for which `keep`
      holds, in their original order. */
  function Select<T>(rows: seq<T>, keep: T -> bool): (r: seq<T>)
    ensures |r| <= |rows|
    ensures forall k :: 0 <= k < |r| ==> keep(r[k])
  {
    if rows == [] then []
    else (if keep(rows[0]) then [rows[0]] else []) + Select(rows[1..], keep)
  }

  /** Every row meeting the mask is kept as often as it occurs in the input,
      and no other row is kept. */
  lemma {:induction false} SelectCounts<T>(rows: seq<T>, keep: T -> bool)
    ensures forall x :: multiset(Select(rows, keep))[x] == if keep(x) then multiset(rows)[x] else 0
  {
    if rows != [] {
      SelectCounts(rows[1..], keep);
      assert rows == [rows[0]] + rows[1..];
    }
  }

  /** The kept rows are exactly the rows at the positions where the mask
      holds, taken in increasing position order: `pos` lists those positions. */
  lemma {:induction false} SelectPositions<T>(rows: seq<T>, keep: T -> bool) returns (pos: seq<nat>)
    ensures |pos| == |Select(rows, keep)|
    ensures forall k :: 0 <= k < |pos| ==> pos[k] < |rows| && Select(rows, keep)[k] == rows[pos[k]]
    ensures forall j, k :: 0 <= j < k < |pos| ==> pos[j] < pos[k]
    ensures forall i :: 0 <= i < |rows| ==> (keep(rows[i]) <==> i in pos)
  {
    if rows == [] {
      pos := [];
    } else {
      var tail := rows[1..];
      var rest := SelectPositions(tail, keep);
      var kept := Select(tail, keep);
      var shifted := Shift(rest);
      ShiftMembers(rest);
      var head: seq<nat> := if keep(rows[0]) then [0] else [];
      var headRows := if keep(rows[0]) then [rows[0]] else [];
      pos := head + shifted;
      assert Select(rows, keep) == headRows + kept;
    }
  }

  /** Every position moved one place on. */
  function Shift(pos: seq<nat>): (r: seq<nat>)
    ensures |r| == |pos|
    ensures forall k :: 0 <= k < |r| ==> r[k] == pos[k] + 1
  {
    seq(|pos|, k requires 0 <= k < |pos| => pos[k] + 1)
  }

  lemma ShiftMembers(pos: seq<nat>)
    ensures forall i :: i in Shift(pos) <==> i > 0 && i - 1 in pos
  {
    var r := Shift(pos);
    forall i | i > 0 && i - 1 in pos ensures i in r {
      var k :| 0 <= k < |pos| && pos[k] == i - 1;
      assert r[k] == i;
    }
  }

  /** A mask that holds on every row keeps the whole table. */
  lemma {:induction false} SelectAll<T>(rows: seq<T>, keep: T -> bool)
    requires forall k :: 0 <= k < |rows| ==> keep(rows[k])
    ensures Select(rows, keep) == rows
  {
    if rows != [] {
      SelectAll(rows[1..], keep);
    }
  }

  /** A mask that holds on no row keeps nothing. */
  lemma {:induction false} SelectNone<T>(rows: seq<T>, keep: T -> bool)
    requires forall k :: 0 <= k < |rows| ==> !keep(rows[k])
    ensures Select(rows, keep) == []
  {
    if rows != [] {
      SelectNone(rows[1..], keep);
    }
  }

  /** Two masks that agree on every row select the same rows. */
  lemma {:induction false} SelectAgreeing<T>(rows: seq<T>, keep: T -> bool, same: T -> bool)
    requires forall x :: keep(x) == same(x)
    ensures Select(rows, keep) == Select(rows, same)
  {
    if rows != [] {
      SelectAgreeing(rows[1..], keep, same);
    }
  }

  /** Masking a concatenation masks each part. */
  lemma {:induction false} SelectConcat<T>(a: seq<T>, b: seq<T>, keep: T -> bool)
    ensures Select(a + b, keep) == Select(a, keep) + Select(b, keep)
  {
    if a != [] {
      SelectConcat(a[1..], b, keep);
      var head := if keep(a[0]) then [a[0]] else [];
      assert (a + b)[0] == a[0] && (a + b)[1..] == a[1..] + b;
      assert Select(a + b, keep) == head + Select(a[1..] + b, keep);
      assert Select(a, keep) == head + Select(a[1..], keep);
    } else {
      assert a + b == b;
    }
  }

  /** Selecting with one mask and then another is selecting once with their
      conjunction. */
  lemma {:induction false} SelectThenSelect<T>(rows: seq<T>, first: T -> bool, second: T -> bool, both: T -> bool)
    requires forall x :: both(x) == (first(x) && second(x))
    ensures Select(Select(rows, first), second) == Select(rows, both)
  {
    if rows != [] {
      SelectThenSelect(rows[1..], first, second, both);
      var head := if first(rows[0]) then [rows[0]] else [];
      SelectConcat(head, Select(rows[1..], first), second);
    }
  }

  /** Applying a mask to its own result changes nothing. */
  lemma {:induction false} SelectIdempotent<T>(rows: seq<T>, keep: T -> bool)
    ensures Select(Select(rows, keep), keep) == Select(rows, keep)
  {
    SelectAll(Select(rows, keep), keep);
  }

  /** `Series.unique()`: each value once, in order of first appearance. */
  function Unique<T(==)>(s: seq<T>): (u: seq<T>)
    ensures Distinct(u)
    ensures forall k :: 0 <= k < |u| ==> u[k] in s
    ensures forall i :: 0 <= i < |s| ==> s[i] in u
  {
    if s == [] then []
    else
      var front := s[..|s| - 1];
      var u' := Unique(front);
      assert s == front + [s[|s| - 1]];
      if s[|s| - 1] in u' then u' else u' + [s[|s| - 1]]
  }

  /** `unique()` lists values in order of first appearance: when `u[j]` comes
      before `u[k]`, `u[j]` occurs in `s` at a point where `u[k]` has not yet
      occurred. */
  lemma {:induction false} UniqueInOrderOfAppearance<T>(s: seq<T>)
    ensures forall j, k :: 0 <= j < k < |Unique(s)| ==>
      exists i :: 0 <= i < |s| && s[i] == Unique(s)[j] && Unique(s)[k] !in s[..i]
  {
    var u := Unique(s);
    forall j, k | 0 <= j < k < |u|
      ensures exists i :: 0 <= i < |s| && s[i] == u[j] && u[k] !in s[..i]
    {
      var w := FirstAppearanceBefore(s, j, k);
      assert s[w] == u[j] && u[k] !in s[..w];
    }
  }

  /** The position `i` witnessing that `Unique(s)[j]` appears before
      `Unique(s)[k]` first does. */
  lemma {:induction false} FirstAppearanceBefore<T>(s: seq<T>, j: nat, k: nat) returns (i: nat)
    requires j < k < |Unique(s)|
    ensures i < |s| && s[i] == Unique(s)[j] && Unique(s)[k] !in s[..i]
  {
    var n := |s|;
    var front, last := s[..n - 1], s[n - 1];
    var u', u := Unique(front), Unique(s);
    assert s == front + [last];
    assert u == if last in u' then u' else u' + [last];
    assert u[j] == u'[j];
    if k < |u'| {
      assert u[k] == u'[k];
      i := FirstAppearanceBefore(front, j, k);
    } else {
      assert u[k] == last && last !in u';
      assert u'[j] in front;
      i :| i < |front| && front[i] == u'[j];
      assert forall x :: x in front[..i] ==> x in front;
    }
    assert s[..i] == front[..i] && s[i] == front[i];
  }

  /** A sequence that already has no duplicates is its own `unique()`. */
  lemma {:induction false} UniqueOfDistinct<T>(s: seq<T>)
    requires Distinct(s)
    ensures Unique(s) == s
  {
    if s != [] {
      var front := s[..|s| - 1];
      UniqueOfDistinct(front);
      assert s == front + [s[|s| - 1]];
    }
  }

  /** A sequence without duplicates has as many elements as its set. */
  lemma {:induction false} DistinctCardinality<T>(s: seq<T>)
    requires Distinct(s)
    ensures |set x | x in s| == |s|
  {
    if s != [] {
      DistinctCardinality(s[1..]);
      assert (set x | x in s) == {s[0]} + (set x | x in s[1..]);
      assert s[0] !in s[1..];
    }
  }
}
