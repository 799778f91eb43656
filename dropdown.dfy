/** The choices of the site dropdown: an "All Sites" entry with value "ALL",
    then one entry per launch site, each site once, in string order. */
module Dropdown {
  import opened Series
  import opened Launches
  import opened TextOrder

  /** One dropdown entry: the text shown and the value the callbacks receive. */
  datatype DropdownOption = DropdownOption(caption: string, value: string)

  /** One entry per site, shown under its own name. */
  function SiteEntries(sites: seq<string>): seq<DropdownOption> {
    seq(|sites|, i requires 0 <= i < |sites| => DropdownOption(sites[i], sites[i]))
  }

  /** The dropdown's options: "All Sites" first, then
      `sorted(spacex_df["Launch Site"].unique())`. */
  function SiteOptions(t: Table): seq<DropdownOption> {
    [DropdownOption("All Sites", AllSites)] + SiteEntries(Sort(Unique(SiteColumn(t))))
  }

  /** The sorted distinct sites: strictly increasing, exactly the sites of
      the table, one per distinct site. */
  lemma SortedSites(t: Table)
    ensures var sorted := Sort(Unique(SiteColumn(t)));
      && |sorted| == |set s | s in SiteColumn(t)|
      && StrictlyAscending(sorted)
      && (forall s :: s in sorted <==> s in SiteColumn(t))
  {
    var u := Unique(SiteColumn(t));
    var sorted := Sort(u);
    SortSpec(u);
    SortDistinct(u);
    DistinctCardinality(u);
    assert (set s | s in u) == (set s | s in SiteColumn(t));
    assert |sorted| == |u| by {
      assert |multiset(sorted)| == |multiset(u)|;
    }
    forall s ensures s in sorted <==> s in u {
      assert s in sorted <==> s in multiset(sorted);
    }
  }

  /** Option `k` after the first shows and sends site `k - 1` of the list. */
  lemma {:induction false} OptionsOver(sites: seq<string>)
    ensures var opts := [DropdownOption("All Sites", AllSites)] + SiteEntries(sites);
      && |opts| == 1 + |sites|
      && forall k :: 1 <= k < |opts| ==> opts[k] == DropdownOption(sites[k - 1], sites[k - 1])
  {
  }

  /** The first option selects every site; every later option is shown under
      its own value; the later values strictly increase, so no site is
      offered twice; they are exactly the sites of the table, so there are
      as many as there are distinct sites. */
  lemma SiteOptionsSpec(t: Table)
    ensures var opts := SiteOptions(t);
      && |opts| == 1 + |set s | s in SiteColumn(t)|
      && opts[0] == DropdownOption("All Sites", AllSites)
      && (forall k :: 1 <= k < |opts| ==> opts[k].caption == opts[k].value)
      && (forall j, k :: 1 <= j < k < |opts| ==> Less(opts[j].value, opts[k].value))
      && (forall k :: 1 <= k < |opts| ==> opts[k].value in SiteColumn(t))
      && (forall i :: 0 <= i < |t| ==> exists k :: 1 <= k < |opts| && opts[k].value == t[i].site)
  {
    var sorted := Sort(Unique(SiteColumn(t)));
    var opts := SiteOptions(t);
    OptionsOver(sorted);
    SortedSites(t);
    forall i | 0 <= i < |t| ensures exists k :: 1 <= k < |opts| && opts[k].value == t[i].site {
      assert SiteColumn(t)[i] == t[i].site;
      var m :| 0 <= m < |sorted| && sorted[m] == t[i].site;
      assert opts[m + 1].value == t[i].site;
    }
  }
}
