/** The data behind the payload scatter chart (`get_scatter_chart`): the rows
    whose payload mass lies in the slider's closed range, narrowed to one
    site unless the dropdown says "ALL"; and the slider's default range, the
    observed lightest and heaviest payloads. */
module Scatter {
  import opened Series
  import opened Launches

  /** The rows handed to the scatter chart: first the payload-range mask,
      then, for a specific site, the site mask. */
  function PayloadFilter(t: Table, enteredSite: string, low: int, high: int): Table {
    var inRange := Select(t, InPayloadRange(low, high));
    if enteredSite != AllSites then Select(inRange, AtSite(enteredSite)) else inRange
  }

  /** Whether one row belongs on the chart, as a single mask: in the payload
      range, and at the selected site unless the selection is "ALL". */
  function ChartMask(enteredSite: string, low: int, high: int): LaunchRecord -> bool {
    (r: LaunchRecord) => InPayloadRange(low, high)(r) && (enteredSite == AllSites || AtSite(enteredSite)(r))
  }

  /** The two masks applied in turn select the same rows as the one combined
      condition. */
  lemma PayloadFilterIsOneMask(t: Table, enteredSite: string, low: int, high: int)
    ensures PayloadFilter(t, enteredSite, low, high) == Select(t, ChartMask(enteredSite, low, high))
  {
    if enteredSite != AllSites {
      SelectThenSelect(t, InPayloadRange(low, high), AtSite(enteredSite), ChartMask(enteredSite, low, high));
    } else {
      SelectAgreeing(t, InPayloadRange(low, high), ChartMask(enteredSite, low, high));
    }
  }

  /** Every charted row lies in [low, high], both ends included, and belongs to
      the selected site unless the selection is "ALL". */
  lemma PayloadFilterSound(t: Table, enteredSite: string, low: int, high: int)
    ensures forall k :: 0 <= k < |PayloadFilter(t, enteredSite, low, high)| ==>
      var r := PayloadFilter(t, enteredSite, low, high)[k];
      low <= r.mass <= high && (enteredSite != AllSites ==> r.site == enteredSite)
  {
    PayloadFilterIsOneMask(t, enteredSite, low, high);
  }

  /** An inverted range charts nothing. */
  lemma PayloadFilterEmptyRange(t: Table, enteredSite: string, low: int, high: int)
    requires low > high
    ensures PayloadFilter(t, enteredSite, low, high) == []
  {
    PayloadFilterIsOneMask(t, enteredSite, low, high);
    SelectNone(t, ChartMask(enteredSite, low, high));
  }

  /** Every row meeting both conditions is charted exactly as often as it
      occurs in the table, and no other row is; with "ALL" the site plays no
      part. */
  lemma PayloadFilterComplete(t: Table, enteredSite: string, low: int, high: int)
    ensures forall x ::
      multiset(PayloadFilter(t, enteredSite, low, high))[x] ==
      if low <= x.mass <= high && (enteredSite == AllSites || x.site == enteredSite)
      then multiset(t)[x] else 0
  {
    PayloadFilterIsOneMask(t, enteredSite, low, high);
    SelectCounts(t, ChartMask(enteredSite, low, high));
  }

  /** The charted rows are the table rows at exactly the positions meeting
      both conditions, in table order. */
  lemma PayloadFilterKeepsOrder(t: Table, enteredSite: string, low: int, high: int) returns (pos: seq<nat>)
    ensures |pos| == |PayloadFilter(t, enteredSite, low, high)|
    ensures forall k :: 0 <= k < |pos| ==>
      pos[k] < |t| && PayloadFilter(t, enteredSite, low, high)[k] == t[pos[k]]
    ensures forall j, k :: 0 <= j < k < |pos| ==> pos[j] < pos[k]
    ensures forall i :: 0 <= i < |t| ==>
      (low <= t[i].mass <= high && (enteredSite == AllSites || t[i].site == enteredSite) <==> i in pos)
  {
    PayloadFilterIsOneMask(t, enteredSite, low, high);
    pos := SelectPositions(t, ChartMask(enteredSite, low, high));
  }

  /** Filtering the chart's own rows again with the same site and range gives
      them back unchanged. */
  lemma PayloadFilterIdempotent(t: Table, enteredSite: string, low: int, high: int)
    ensures var once := PayloadFilter(t, enteredSite, low, high);
      PayloadFilter(once, enteredSite, low, high) == once
  {
    var once := PayloadFilter(t, enteredSite, low, high);
    PayloadFilterIsOneMask(t, enteredSite, low, high);
    PayloadFilterIsOneMask(once, enteredSite, low, high);
    SelectIdempotent(t, ChartMask(enteredSite, low, high));
  }

  /** The slider's starting range: the table's lightest and heaviest payload,
      or nothing for an empty table (where the column minimum and maximum
      are undefined). */
  datatype PayloadBounds = NoPayloads | PayloadBounds(lightest: int, heaviest: int)

  /** `spacex_df["Payload Mass (kg)"].min()` and `.max()`. */
  function MassBounds(t: Table): (b: PayloadBounds)
    ensures b.NoPayloads? <==> t == []
    ensures b.PayloadBounds? ==>
      forall k :: 0 <= k < |t| ==> b.lightest <= t[k].mass <= b.heaviest
    ensures b.PayloadBounds? ==>
      (exists k :: 0 <= k < |t| && t[k].mass == b.lightest) &&
      (exists k :: 0 <= k < |t| && t[k].mass == b.heaviest)
  {
    if t == [] then NoPayloads
    else
      match MassBounds(t[1..])
      case NoPayloads => PayloadBounds(t[0].mass, t[0].mass)
      case PayloadBounds(lo, hi) =>
        PayloadBounds(if t[0].mass < lo then t[0].mass else lo,
                      if t[0].mass > hi then t[0].mass else hi)
  }

  /** With the slider at its starting range and "ALL" selected, the chart
      shows the whole table. */
  lemma DefaultRangeChartsEverything(t: Table)
    requires t != []
    ensures PayloadFilter(t, AllSites, MassBounds(t).lightest, MassBounds(t).heaviest) == t
  {
    var b := MassBounds(t);
    SelectAll(t, InPayloadRange(b.lightest, b.heaviest));
  }
}
