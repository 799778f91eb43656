/** Python's ordering of `str` values, character code by character code with a
    proper prefix first, and `sorted()` over a list of them. */
module TextOrder {
  import opened Series

  /** `a < b` on Python strings. */
  predicate Less(a: string, b: string) {
    if a == [] then b != []
    else if b == [] then false
    else if a[0] != b[0] then a[0] < b[0]
    else Less(a[1..], b[1..])
  }

  lemma {:induction false} LessIrreflexive(a: string)
    ensures !Less(a, a)
  {
    if a != [] {
      LessIrreflexive(a[1..]);
    }
  }

  lemma {:induction false} LessTransitive(a: string, b: string, c: string)
    requires Less(a, b) && Less(b, c)
    ensures Less(a, c)
  {
    if a != [] && b != [] && c != [] && a[0] == b[0] && b[0] == c[0] {
      LessTransitive(a[1..], b[1..], c[1..]);
    }
  }

  lemma {:induction false} LessTotal(a: string, b: string)
    ensures a == b || Less(a, b) || Less(b, a)
  {
    if a != [] && b != [] && a[0] == b[0] {
      LessTotal(a[1..], b[1..]);
      assert a == [a[0]] + a[1..] && b == [b[0]] + b[1..];
    }
  }

  /** `<=` is transitive. */
  lemma AtMostTransitive(a: string, b: string, c: string)
    requires !Less(b, a) && !Less(c, b)
    ensures !Less(c, a)
  {
    LessTotal(a, b);
    LessTotal(b, c);
    if Less(a, b) && Less(b, c) {
      LessTransitive(a, b, c);
      LessAsymmetric(a, c);
    } else if a == b {
    } else {
      LessAsymmetric(a, c);
    }
  }

  lemma LessAsymmetric(a: string, b: string)
    requires Less(a, b)
    ensures !Less(b, a)
  {
    if Less(b, a) {
      LessTransitive(a, b, a);
      LessIrreflexive(a);
    }
  }

  /** In non-decreasing order. */
  predicate Sorted(s: seq<string>) {
    forall i, j :: 0 <= i < j < |s| ==> !Less(s[j], s[i])
  }

  /** In strictly increasing order. */
  predicate StrictlyAscending(s: seq<string>) {
    forall i, j :: 0 <= i < j < |s| ==> Less(s[i], s[j])
  }

  /** Places `x` before the first element not below it. */
  function Insert(x: string, s: seq<string>): seq<string> {
    if s == [] then [x]
    else if Less(s[0], x) then [s[0]] + Insert(x, s[1..])
    else [x] + s
  }

  /** `sorted()`: insertion sort. */
  function Sort(s: seq<string>): seq<string> {
    if s == [] then [] else Insert(s[0], Sort(s[1..]))
  }

  lemma {:induction false} InsertSpec(x: string, s: seq<string>)
    requires Sorted(s)
    ensures multiset(Insert(x, s)) == multiset(s) + multiset{x}
    ensures Sorted(Insert(x, s))
  {
    if s != [] {
      assert s == [s[0]] + s[1..];
      if Less(s[0], x) {
        InsertSpec(x, s[1..]);
        InsertBehindHead(x, s);
      } else {
        InsertInFront(x, s);
      }
    }
  }

  /** When the head is below `x`, keeping the head in front of the sorted
      insertion into the rest stays sorted. */
  lemma InsertBehindHead(x: string, s: seq<string>)
    requires Sorted(s) && s != [] && Less(s[0], x)
    requires multiset(Insert(x, s[1..])) == multiset(s[1..]) + multiset{x}
    requires Sorted(Insert(x, s[1..]))
    ensures Sorted([s[0]] + Insert(x, s[1..]))
  {
    var h, rest, r := s[0], s[1..], Insert(x, s[1..]);
    LessAsymmetric(h, x);
    forall j | 0 <= j < |r| ensures !Less(r[j], h) {
      assert r[j] in multiset(r);
      if r[j] != x {
        assert r[j] in rest;
        var m :| 0 <= m < |rest| && rest[m] == r[j];
        assert s[m + 1] == r[j];
      }
    }
    var whole := [h] + r;
    forall i, j | 0 <= i < j < |whole| ensures !Less(whole[j], whole[i]) {
      if i > 0 {
        assert whole[i] == r[i - 1] && whole[j] == r[j - 1];
      }
    }
  }

  /** When the head is not below `x`, putting `x` in front stays sorted. */
  lemma InsertInFront(x: string, s: seq<string>)
    requires Sorted(s) && s != [] && !Less(s[0], x)
    ensures Sorted([x] + s)
  {
    var whole := [x] + s;
    forall i, j | 0 <= i < j < |whole| ensures !Less(whole[j], whole[i]) {
      if i == 0 && j > 1 {
        AtMostTransitive(x, s[0], s[j - 1]);
      }
    }
  }

  /** `sorted()` returns the same strings in non-decreasing order. */
  lemma {:induction false} SortSpec(s: seq<string>)
    ensures multiset(Sort(s)) == multiset(s)
    ensures Sorted(Sort(s))
  {
    if s != [] {
      SortSpec(s[1..]);
      InsertSpec(s[0], Sort(s[1..]));
      assert s == [s[0]] + s[1..];
    }
  }

  /** Two sequences holding the same strings equally often agree on having
      no duplicates. */
  lemma DistinctByCounts(a: seq<string>, b: seq<string>)
    requires multiset(a) == multiset(b)
    requires Distinct(a)
    ensures Distinct(b)
  {
    forall i, j | 0 <= i < j < |b| ensures b[i] != b[j] {
      if b[i] == b[j] {
        TwoOccurrences(b, i, j);
        OnceEach(a, b[i]);
        assert false;
      }
    }
  }

  lemma TwoOccurrences(s: seq<string>, i: nat, j: nat)
    requires i < j < |s| && s[i] == s[j]
    ensures multiset(s)[s[i]] >= 2
  {
    assert s == s[..i] + [s[i]] + s[i + 1..j] + [s[j]] + s[j + 1..];
  }

  lemma {:induction false} OnceEach(s: seq<string>, x: string)
    requires Distinct(s)
    ensures multiset(s)[x] <= 1
  {
    if s != [] {
      assert Distinct(s[1..]) by {
        assert forall i :: 0 <= i < |s| - 1 ==> s[1..][i] == s[i + 1];
      }
      OnceEach(s[1..], x);
      assert s == [s[0]] + s[1..];
      if x == s[0] {
        assert x !in s[1..];
      }
    }
  }

  /** Sorting strings that have no duplicates puts them in strictly
      increasing order. */
  lemma SortDistinct(s: seq<string>)
    requires Distinct(s)
    ensures StrictlyAscending(Sort(s))
    ensures Distinct(Sort(s))
  {
    var r := Sort(s);
    SortSpec(s);
    DistinctByCounts(s, r);
    forall i, j | 0 <= i < j < |r| ensures Less(r[i], r[j]) {
      LessTotal(r[i], r[j]);
    }
  }
}
