/** The launch table both callbacks read: one immutable sequence of rows,
    loaded once, with the masks and counts the queries are built from. */
module Launches {
  import opened Series

  /** One row of the table: the "Launch Site", "Payload Mass (kg)", "class"
      (1 for a successful launch, 0 for a failed one) and "Booster Version
      Category" columns. */
  datatype LaunchRecord = LaunchRecord(site: string, mass: int, success: bool, booster: string)

  type Table = seq<LaunchRecord>

  /** The dropdown value that stands for every site at once. */
  const AllSites: string := "ALL"

  /** The 0/1 integer the "class" column holds. */
  function ClassValue(success: bool): nat {
    if success then 1 else 0
  }

  /** The "Launch Site" column. */
  function SiteColumn(t: Table): seq<string> {
    seq(|t|, i requires 0 <= i < |t| => t[i].site)
  }

  /** The "class" column, as booleans. */
  function ClassColumn(t: Table): seq<bool> {
    seq(|t|, i requires 0 <= i < |t| => t[i].success)
  }

  /** The mask `df["Launch Site"] == site`. */
  function AtSite(site: string): LaunchRecord -> bool {
    (r: LaunchRecord) => r.site == site
  }

  /** The mask `(df["Payload Mass (kg)"] >= low) & (df["Payload Mass (kg)"] <= high)`. */
  function InPayloadRange(low: int, high: int): LaunchRecord -> bool {
    (r: LaunchRecord) => low <= r.mass && r.mass <= high
  }

  /** The mask for class 1. */
  function Succeeded(r: LaunchRecord): bool {
    r.success
  }

  /** The mask for class 0. */
  function Failed(r: LaunchRecord): bool {
    !r.success
  }

  /** The rows of one site, `spacex_df[spacex_df["Launch Site"] == site]`. */
  function SiteRecords(t: Table, site: string): Table {
    Select(t, AtSite(site))
  }

  /** The number of class-1 rows. */
  function SuccessCount(t: Table): nat {
    |Select(t, Succeeded)|
  }

  /** The number of class-0 rows. */
  function FailureCount(t: Table): nat {
    |Select(t, Failed)|
  }

  /** Every row is either a success or a failure. */
  lemma {:induction false} OutcomesPartition(t: Table)
    ensures SuccessCount(t) + FailureCount(t) == |t|
  {
    if t != [] {
      OutcomesPartition(t[1..]);
    }
  }

  /** A site has rows exactly when some row names it. */
  lemma SiteRecordsEmpty(t: Table, site: string)
    ensures SiteRecords(t, site) == [] <==> site !in SiteColumn(t)
  {
    var pos := SelectPositions(t, AtSite(site));
    if site in SiteColumn(t) {
      var i :| 0 <= i < |t| && SiteColumn(t)[i] == site;
      assert i in pos;
    } else {
      assert forall k :: 0 <= k < |t| ==> SiteColumn(t)[k] == t[k].site;
      SelectNone(t, AtSite(site));
    }
  }
}
