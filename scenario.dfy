/** A three-launch table worked through both callbacks: site "A" with one
    success and one failure, site "B" with one success. */
module Scenario {
  import opened Series
  import opened Launches
  import opened Scatter
  import opened Pie

  function SampleTable(): Table {
    [ LaunchRecord("A", 500, true, "v1.0"),
      LaunchRecord("A", 1500, false, "v1.1"),
      LaunchRecord("B", 2000, true, "FT") ]
  }

  /** For "ALL", each site's slice is its number of successes. */
  lemma SampleAllSitesPie()
    ensures OutcomePie(SampleTable(), AllSites) == [Slice("A", 1), Slice("B", 1)]
  {
    var rows := [Slice("A", 1), Slice("A", 0), Slice("B", 1)];
    SampleClassRows();
    SampleSiteNames();
    SampleSiteSums(rows);
  }

  lemma SampleClassRows()
    ensures ClassRows(SampleTable()) == [Slice("A", 1), Slice("A", 0), Slice("B", 1)]
  {
    var rows := [Slice("A", 1), Slice("A", 0), Slice("B", 1)];
    assert forall i :: 0 <= i < 3 ==> ClassRows(SampleTable())[i] == rows[i];
  }

  lemma SampleSiteNames()
    ensures Unique(Names([Slice("A", 1), Slice("A", 0), Slice("B", 1)])) == ["A", "B"]
  {
    var rows := [Slice("A", 1), Slice("A", 0), Slice("B", 1)];
    var names := ["A", "A", "B"];
    assert Names(rows) == names by {
      assert forall i :: 0 <= i < 3 ==> Names(rows)[i] == names[i];
    }
    assert names[..2] == ["A", "A"] && ["A", "A"][..1] == ["A"];
    assert Unique(["A"]) == ["A"];
    assert Unique(["A", "A"]) == ["A"];
  }

  lemma SampleSiteSums(rows: seq<Slice>)
    requires rows == [Slice("A", 1), Slice("A", 0), Slice("B", 1)]
    ensures SlicesFor(rows, ["A", "B"]) == [Slice("A", 1), Slice("B", 1)]
  {
    var middle, last := rows[1..], rows[2..];
    assert middle[1..] == last && last == [Slice("B", 1)] && last[1..] == [];
    assert NameSum(last, "A") == 0 + NameSum([], "A") == 0;
    assert NameSum(last, "B") == 1 + NameSum([], "B") == 1;
    assert NameSum(middle, "A") == 0 && NameSum(middle, "B") == 1;
    assert NameSum(rows, "A") == 1 && NameSum(rows, "B") == 1;
    SlicesForShape(rows, ["A", "B"]);
  }

  /** For site "A", one success and one failure, in whichever order. */
  lemma SampleSitePie()
    ensures var r := OutcomePie(SampleTable(), "A");
      |r| == 2 && Slice("Success", 1) in r && Slice("Failed", 1) in r
  {
    var t := SampleTable();
    var recs := SiteRecords(t, "A");
    assert recs == t[..2];
    assert ClassColumn(recs) == [true, false];
    var rows := OutcomeRows(ValueCounts([true, false]));
    assert rows == [Slice("Success", 1), Slice("Failed", 1)];
    assert Distinct(Names(rows));
    PieSlicesOfDistinct(rows);
  }

  /** The range [0, 1000] keeps only the 500 kg launch. */
  lemma SampleLightPayloads()
    ensures PayloadFilter(SampleTable(), AllSites, 0, 1000) == [SampleTable()[0]]
  {
    var t := SampleTable();
    assert t[1..][1..] == [t[2]];
  }

  /** Site "B" over [0, 3000] keeps only its own launch. */
  lemma SampleSiteB()
    ensures PayloadFilter(SampleTable(), "B", 0, 3000) == [SampleTable()[2]]
  {
    var t := SampleTable();
    assert t[1..][1..] == [t[2]];
    SelectAll(t, InPayloadRange(0, 3000));
    assert Select(t, AtSite("B")) == [t[2]];
  }
}
