/** The data behind the outcome pie chart (`get_pie_chart`). The pie chart
    sums its `values` column per distinct `names` value; for "ALL" it is fed
    the site and class columns of the whole table, so each site's slice is
    its number of successful launches; for one site it is fed that site's
    class `value_counts()`, relabelled "Success" and "Failed". */
module Pie {
  import opened Series
  import opened Launches

  /** One pie row: the `names` value and its `values` value. */
  datatype Slice = Slice(name: string, value: int)

  /** The `names` column of pie rows. */
  function Names(rows: seq<Slice>): seq<string> {
    seq(|rows|, i requires 0 <= i < |rows| => rows[i].name)
  }

  /** The sum of `values` over the rows named `name`. */
  function NameSum(rows: seq<Slice>, name: string): int {
    if rows == [] then 0
    else (if rows[0].name == name then rows[0].value else 0) + NameSum(rows[1..], name)
  }

  /** The sum of all `values`. */
  function Total(rows: seq<Slice>): int {
    if rows == [] then 0 else rows[0].value + Total(rows[1..])
  }

  /** One slice per listed name, carrying that name's sum. */
  function SlicesFor(rows: seq<Slice>, names: seq<string>): seq<Slice> {
    if names == [] then []
    else [Slice(names[0], NameSum(rows, names[0]))] + SlicesFor(rows, names[1..])
  }

  /** What the pie chart draws from its rows: one slice per distinct name,
      in order of first appearance, with the values of that name summed. */
  function PieSlices(rows: seq<Slice>): seq<Slice> {
    SlicesFor(rows, Unique(Names(rows)))
  }

  lemma {:induction false} SlicesForShape(rows: seq<Slice>, names: seq<string>)
    ensures |SlicesFor(rows, names)| == |names|
    ensures forall k :: 0 <= k < |names| ==> SlicesFor(rows, names)[k] == Slice(names[k], NameSum(rows, names[k]))
  {
    if names != [] {
      var tail := SlicesFor(rows, names[1..]);
      SlicesForShape(rows, names[1..]);
      var whole := [Slice(names[0], NameSum(rows, names[0]))] + tail;
      assert SlicesFor(rows, names) == whole;
      forall k | 0 < k < |names| ensures whole[k] == Slice(names[k], NameSum(rows, names[k])) {
        assert whole[k] == tail[k - 1] && names[1..][k - 1] == names[k];
      }
    }
  }

  /** The chart has each name of its rows exactly once, in order of first
      appearance, and no other name; each slice carries the sum of the values
      given under its name. */
  lemma PieSlicesSpec(rows: seq<Slice>)
    ensures Names(PieSlices(rows)) == Unique(Names(rows))
    ensures Distinct(Names(PieSlices(rows)))
    ensures forall l :: l in Names(PieSlices(rows)) <==> l in Names(rows)
    ensures forall k :: 0 <= k < |PieSlices(rows)| ==>
      PieSlices(rows)[k].value == NameSum(rows, PieSlices(rows)[k].name)
  {
    var u := Unique(Names(rows));
    SlicesForShape(rows, u);
    assert forall k :: 0 <= k < |u| ==> Names(PieSlices(rows))[k] == u[k];
    assert forall k :: 0 <= k < |u| ==> PieSlices(rows)[k].name == u[k];
  }

  /** Moving one row in front adds its value to the sum of the slices over
      names that include its own once. */
  lemma {:induction false} SlicesForCons(head: Slice, rest: seq<Slice>, names: seq<string>)
    requires Distinct(names)
    ensures Total(SlicesFor([head] + rest, names)) ==
      Total(SlicesFor(rest, names)) + (if head.name in names then head.value else 0)
  {
    if names != [] {
      assert Distinct(names[1..]) by {
        assert forall i :: 0 <= i < |names[1..]| ==> names[1..][i] == names[i + 1];
      }
      SlicesForCons(head, rest, names[1..]);
      assert head.name == names[0] ==> head.name !in names[1..];
      assert ([head] + rest)[1..] == rest;
    }
  }

  lemma {:induction false} SlicesForNothing(names: seq<string>)
    ensures Total(SlicesFor([], names)) == 0
  {
    if names != [] {
      SlicesForNothing(names[1..]);
    }
  }

  /** Summing per name over names that cover every row, each once, gives
      the sum of all values. */
  lemma {:induction false} SlicesForTotal(rows: seq<Slice>, names: seq<string>)
    requires Distinct(names)
    requires forall k :: 0 <= k < |rows| ==> rows[k].name in names
    ensures Total(SlicesFor(rows, names)) == Total(rows)
  {
    if rows == [] {
      SlicesForNothing(names);
    } else {
      SlicesForTotal(rows[1..], names);
      SlicesForCons(rows[0], rows[1..], names);
      assert [rows[0]] + rows[1..] == rows;
    }
  }

  /** Grouping by name loses and invents nothing: the chart's slices add up
      to the sum of all the values it was given. */
  lemma PieSlicesTotal(rows: seq<Slice>)
    ensures Total(PieSlices(rows)) == Total(rows)
  {
    var u := Unique(Names(rows));
    assert forall k :: 0 <= k < |rows| ==> Names(rows)[k] == rows[k].name;
    SlicesForTotal(rows, u);
  }

  lemma {:induction false} NameSumOfDistinct(rows: seq<Slice>, k: nat)
    requires Distinct(Names(rows))
    requires k < |rows|
    ensures NameSum(rows, rows[k].name) == rows[k].value
  {
    var tail := rows[1..];
    assert Distinct(Names(tail)) by {
      assert forall i :: 0 <= i < |tail| ==> Names(tail)[i] == Names(rows)[i + 1];
    }
    if k == 0 {
      forall i | 0 <= i < |tail| ensures Names(tail)[i] != Names(rows)[0] {
        assert Names(tail)[i] == Names(rows)[i + 1];
      }
      NameSumAbsent(tail, rows[0].name);
    } else {
      assert Names(rows)[0] != Names(rows)[k];
      NameSumOfDistinct(tail, k - 1);
    }
  }

  lemma {:induction false} NameSumAbsent(rows: seq<Slice>, name: string)
    requires name !in Names(rows)
    ensures NameSum(rows, name) == 0
  {
    if rows != [] {
      assert Names(rows)[0] == rows[0].name;
      assert name !in Names(rows[1..]) by {
        assert forall i :: 0 <= i < |rows| - 1 ==> Names(rows[1..])[i] == Names(rows)[i + 1];
      }
      NameSumAbsent(rows[1..], name);
    }
  }

  /** Rows whose names are already distinct are drawn as they are. */
  lemma PieSlicesOfDistinct(rows: seq<Slice>)
    requires Distinct(Names(rows))
    ensures PieSlices(rows) == rows
  {
    UniqueOfDistinct(Names(rows));
    SlicesForShape(rows, Names(rows));
    var r := PieSlices(rows);
    forall k | 0 <= k < |rows| ensures r[k] == rows[k] {
      NameSumOfDistinct(rows, k);
      assert Names(rows)[k] == rows[k].name;
    }
  }

  // ---------------------------------------------------------------------
  // "ALL": names = "Launch Site", values = "class"

  /** The rows the chart is given for "ALL": each launch's site and 0/1 class. */
  function ClassRows(t: Table): seq<Slice> {
    seq(|t|, i requires 0 <= i < |t| => Slice(t[i].site, ClassValue(t[i].success)))
  }

  /** The "ALL" pie: one slice per site. */
  function AllSitesPie(t: Table): seq<Slice> {
    PieSlices(ClassRows(t))
  }

  /** Summing the 0/1 class over a site's rows counts its successes. */
  lemma {:induction false} ClassSumCountsSuccesses(t: Table, site: string)
    ensures NameSum(ClassRows(t), site) == SuccessCount(SiteRecords(t, site))
  {
    if t != [] {
      ClassSumCountsSuccesses(t[1..], site);
      assert ClassRows(t)[1..] == ClassRows(t[1..]);
      var head := if t[0].site == site then [t[0]] else [];
      SelectConcat(head, SiteRecords(t[1..], site), Succeeded);
    }
  }

  /** Summing the 0/1 class over the whole table counts its successes. */
  lemma {:induction false} ClassTotalCountsSuccesses(t: Table)
    ensures Total(ClassRows(t)) == SuccessCount(t)
  {
    if t != [] {
      ClassTotalCountsSuccesses(t[1..]);
      assert ClassRows(t)[1..] == ClassRows(t[1..]);
    }
  }

  /** The "ALL" pie has one slice per distinct site of the table, in order of
      first appearance, no two for the same site, and no slice for a site
      the table lacks. */
  lemma AllSitesPieSites(t: Table)
    ensures Names(AllSitesPie(t)) == Unique(SiteColumn(t))
    ensures |AllSitesPie(t)| == |set s | s in SiteColumn(t)|
    ensures forall s :: s in Names(AllSitesPie(t)) <==> s in SiteColumn(t)
  {
    PieSlicesSpec(ClassRows(t));
    assert Names(ClassRows(t)) == SiteColumn(t);
    var u := Unique(SiteColumn(t));
    DistinctCardinality(u);
    assert (set s | s in u) == (set s | s in SiteColumn(t));
  }

  /** Each "ALL" slice is its site's number of successful launches, and the
      slices add up to the number of successful launches in the table. */
  lemma AllSitesPieValues(t: Table)
    ensures forall k :: 0 <= k < |AllSitesPie(t)| ==>
      AllSitesPie(t)[k].value == SuccessCount(SiteRecords(t, AllSitesPie(t)[k].name))
    ensures Total(AllSitesPie(t)) == SuccessCount(t)
  {
    var r := AllSitesPie(t);
    PieSlicesSpec(ClassRows(t));
    forall k | 0 <= k < |r|
      ensures r[k].value == SuccessCount(SiteRecords(t, r[k].name))
    {
      ClassSumCountsSuccesses(t, r[k].name);
    }
    PieSlicesTotal(ClassRows(t));
    ClassTotalCountsSuccesses(t);
  }

  // ---------------------------------------------------------------------
  // One site: value_counts of the site's class column, relabelled

  /** One row of `value_counts()`: a class value and how often it occurs. */
  datatype ClassCount = ClassCount(success: bool, count: nat)

  /** `value_counts()` of a class column: one row per class value that occurs,
      with its number of occurrences (class 1 listed first). */
  function ValueCounts(classes: seq<bool>): seq<ClassCount> {
    var ones, zeros := multiset(classes)[true], multiset(classes)[false];
    (if ones > 0 then [ClassCount(true, ones)] else []) +
    (if zeros > 0 then [ClassCount(false, zeros)] else [])
  }

  /** The `.map({1: "Success", 0: "Failed"})` of the class column. */
  function OutcomeLabel(success: bool): string {
    if success then "Success" else "Failed"
  }

  /** The `outcome_counts` frame as pie rows: names = "Outcome", values = "count". */
  function OutcomeRows(counts: seq<ClassCount>): seq<Slice> {
    seq(|counts|, i requires 0 <= i < |counts| => Slice(OutcomeLabel(counts[i].success), counts[i].count))
  }

  /** The pie for one selected site. */
  function SitePie(t: Table, site: string): seq<Slice> {
    PieSlices(OutcomeRows(ValueCounts(ClassColumn(SiteRecords(t, site)))))
  }

  /** What `get_pie_chart` draws for a dropdown value. */
  function OutcomePie(t: Table, enteredSite: string): seq<Slice> {
    if enteredSite == AllSites then AllSitesPie(t) else SitePie(t, enteredSite)
  }

  /** How often class 1 occurs in a table's class column is its success
      count, and how often class 0 occurs is its failure count. */
  lemma {:induction false} ClassOccurrences(t: Table)
    ensures multiset(ClassColumn(t))[true] == SuccessCount(t)
    ensures multiset(ClassColumn(t))[false] == FailureCount(t)
  {
    if t != [] {
      ClassOccurrences(t[1..]);
      assert ClassColumn(t) == [t[0].success] + ClassColumn(t[1..]);
    }
  }

  /** The relabelled `value_counts()` rows add up to the length of the
      column they count. */
  lemma ValueCountsTotal(classes: seq<bool>)
    ensures Total(OutcomeRows(ValueCounts(classes))) == multiset(classes)[true] + multiset(classes)[false]
  {
    var ones, zeros := multiset(classes)[true], multiset(classes)[false];
    var rows := OutcomeRows(ValueCounts(classes));
    if ones > 0 && zeros > 0 {
      assert rows == [Slice("Success", ones), Slice("Failed", zeros)];
      assert rows[1..] == [Slice("Failed", zeros)];
      assert Total(rows[1..]) == zeros;
    } else if ones > 0 {
      assert rows == [Slice("Success", ones)];
    } else if zeros > 0 {
      assert rows == [Slice("Failed", zeros)];
    } else {
      assert rows == [];
    }
  }

  /** The relabelled `value_counts()` of a class column: a "Success" row
      holding the number of 1s when there are any, a "Failed" row holding
      the number of 0s when there are any, and nothing else. */
  lemma OutcomeRowsSpec(classes: seq<bool>)
    ensures var rows, ones, zeros := OutcomeRows(ValueCounts(classes)), multiset(classes)[true], multiset(classes)[false];
      && |rows| <= 2
      && Distinct(Names(rows))
      && (forall k :: 0 <= k < |rows| ==>
            (rows[k] == Slice("Success", ones) && ones > 0) || (rows[k] == Slice("Failed", zeros) && zeros > 0))
      && (ones > 0 <==> Slice("Success", ones) in rows)
      && (zeros > 0 <==> Slice("Failed", zeros) in rows)
  {
    var ones, zeros := multiset(classes)[true], multiset(classes)[false];
    var rows := OutcomeRows(ValueCounts(classes));
    if ones > 0 && zeros > 0 {
      assert rows == [Slice("Success", ones), Slice("Failed", zeros)];
      assert Names(rows) == ["Success", "Failed"];
    } else if ones > 0 {
      assert rows == [Slice("Success", ones)];
    } else if zeros > 0 {
      assert rows == [Slice("Failed", zeros)];
    } else {
      assert rows == [];
    }
  }

  /** The one-site pie: a "Success" slice holding the site's successful
      launches when there are any, a "Failed" slice holding its failed ones
      when there are any, and nothing else. */
  lemma SitePieSpec(t: Table, site: string)
    ensures var r, recs := SitePie(t, site), SiteRecords(t, site);
      && |r| <= 2
      && Distinct(Names(r))
      && (forall k :: 0 <= k < |r| ==>
            (r[k] == Slice("Success", SuccessCount(recs)) && SuccessCount(recs) > 0) ||
            (r[k] == Slice("Failed", FailureCount(recs)) && FailureCount(recs) > 0))
      && (SuccessCount(recs) > 0 <==> Slice("Success", SuccessCount(recs)) in r)
      && (FailureCount(recs) > 0 <==> Slice("Failed", FailureCount(recs)) in r)
  {
    var classes := ClassColumn(SiteRecords(t, site));
    ClassOccurrences(SiteRecords(t, site));
    OutcomeRowsSpec(classes);
    PieSlicesOfDistinct(OutcomeRows(ValueCounts(classes)));
  }

  /** The one-site slices add up to the number of launches at that site. */
  lemma SitePieTotal(t: Table, site: string)
    ensures Total(SitePie(t, site)) == |SiteRecords(t, site)|
  {
    var recs := SiteRecords(t, site);
    var rows := OutcomeRows(ValueCounts(ClassColumn(recs)));
    ClassOccurrences(recs);
    OutcomesPartition(recs);
    PieSlicesTotal(rows);
    ValueCountsTotal(ClassColumn(recs));
  }

  /** The one-site pie is empty exactly when the table has no launch at that
      site. */
  lemma SitePieEmpty(t: Table, site: string)
    ensures SitePie(t, site) == [] <==> site !in SiteColumn(t)
  {
    var recs := SiteRecords(t, site);
    SiteRecordsEmpty(t, site);
    SitePieSpec(t, site);
    OutcomesPartition(recs);
    if recs != [] {
      assert SuccessCount(recs) > 0 || FailureCount(recs) > 0;
    }
  }

  /** Whatever the dropdown says, the pie never has two slices with the same
      name. */
  lemma OutcomePieDistinct(t: Table, enteredSite: string)
    ensures Distinct(Names(OutcomePie(t, enteredSite)))
  {
    if enteredSite == AllSites {
      PieSlicesSpec(ClassRows(t));
    } else {
      SitePieSpec(t, enteredSite);
    }
  }
}
