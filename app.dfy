/** The aggregations computed inline in `dashboard/app.py`, between the chart
    calls: the sidebar's hotspot list, the per-hotspot average, the category
    percentage table, arrests by category, the cluster-size ranking and its
    largest entry, and the peak hour. The weekday-by-hour grid is in module
    Heatmap. */
module App {
  import opened Seqs
  import opened Groups
  import opened Records
  import opened Utils

  /** One selector per id, in the order of `ids`. */
  function Selectors(ids: seq<int>): (r: seq<Selector>)
    ensures |r| == |ids|
    ensures forall i :: 0 <= i < |ids| ==> r[i] == Cluster(ids[i])
  {
    if ids == [] then [] else [Cluster(ids[0])] + Selectors(ids[1..])
  }

  lemma SelectorsMembers(ids: seq<int>)
    ensures All !in Selectors(ids)
    ensures forall id :: Cluster(id) in Selectors(ids) <==> id in ids
  {
    var r := Selectors(ids);
    forall id | Cluster(id) in r ensures id in ids {
      var i :| 0 <= i < |r| && r[i] == Cluster(id);
    }
    forall id | id in ids ensures Cluster(id) in r {
      var i :| 0 <= i < |ids| && ids[i] == id;
      assert r[i] == Cluster(id);
    }
  }

  /** The sidebar's choices: "All", then the distinct non-noise cluster ids of
      the time-filtered table, ascending. */
  function HotspotOptions(s: seq<Record>): (opts: seq<Selector>)
    ensures |opts| == |ClusterIds(s)| + 1
    ensures opts[0] == All
    ensures forall i :: 1 <= i < |opts| ==> opts[i].Cluster? && opts[i].id in ClusterIds(s)
    ensures forall i, j :: 1 <= i < j < |opts| ==> opts[i].id < opts[j].id
  {
    var ids := ClusterIdList(s);
    [All] + Selectors(ids)
  }

  /** Each hotspot is offered exactly once, "All" once, and noise never. */
  lemma HotspotOptionsDistinct(s: seq<Record>)
    ensures forall id :: Cluster(id) in HotspotOptions(s) <==> id in ClusterIds(s)
    ensures NoDuplicates(HotspotOptions(s))
    ensures Cluster(Noise) !in HotspotOptions(s)
  {
    var ids := ClusterIdList(s);
    var rest := Selectors(ids);
    SelectorsMembers(ids);
    var opts := HotspotOptions(s);
    assert opts == [All] + rest;
    forall id ensures Cluster(id) in opts <==> id in ClusterIds(s) {
      assert Cluster(id) in opts <==> Cluster(id) in rest;
    }
  }

  /** A hotspot's view holds at least one record, all of that hotspot. */
  lemma ClusterView(s: seq<Record>, id: int)
    requires id in ClusterIds(s)
    ensures |FilterByCluster(s, Cluster(id))| > 0
    ensures ClusterIds(FilterByCluster(s, Cluster(id))) == {id}
    ensures forall x :: x in FilterByCluster(s, Cluster(id)) ==> x.cluster != Noise
  {
    var view := FilterByCluster(s, Cluster(id));
    var x :| x in s && x.cluster != Noise && x.cluster == id;
    assert x in view;
  }

  /** Every option the sidebar offers selects something: "All" is the table
      itself, and a hotspot's view holds its records only, so it shows one
      hotspot and no noise. */
  lemma OfferedHotspotView(s: seq<Record>, sel: Selector)
    requires sel in HotspotOptions(s)
    ensures sel == All ==> FilterByCluster(s, sel) == s
    ensures sel.Cluster? ==> |FilterByCluster(s, sel)| > 0
    ensures sel.Cluster? ==> GetOverviewMetrics(FilterByCluster(s, sel)).hotspots == 1
    ensures sel.Cluster? ==> GetOverviewMetrics(FilterByCluster(s, sel)).noisePct == 0.0
  {
    if sel.Cluster? {
      HotspotOptionsDistinct(s);
      ClusterView(s, sel.id);
      var m := GetOverviewMetrics(FilterByCluster(s, sel));
      assert m.hotspots == |{sel.id}|;
    }
  }

  /** "Avg per Hotspot": rows per active hotspot, 0 when there is none. */
  function AvgPerHotspot(total: nat, hotspots: nat): (a: real)
    ensures hotspots == 0 ==> a == 0.0
    ensures hotspots > 0 ==> a * (hotspots as real) == total as real
    ensures 0.0 <= a
  {
    if hotspots > 0 then (total as real) / (hotspots as real) else 0.0
  }

  lemma QuotientAtLeastOne(t: real, h: real)
    requires 0.0 < h <= t
    ensures t / h >= 1.0
  {
  }

  /** Fed with the overview figures, the average is 0 exactly when there is no
      hotspot, and otherwise at least one row per hotspot. */
  lemma AvgPerHotspotOfOverview(s: seq<Record>)
    ensures var m := GetOverviewMetrics(s); AvgPerHotspot(m.total, m.hotspots) == 0.0 <==> m.hotspots == 0
    ensures var m := GetOverviewMetrics(s); m.hotspots > 0 ==> AvgPerHotspot(m.total, m.hotspots) >= 1.0
  {
    var m := GetOverviewMetrics(s);
    if m.hotspots > 0 {
      QuotientAtLeastOne(m.total as real, m.hotspots as real);
    }
  }

  /** One row of the "Crime Type Statistics Table". */
  datatype CrimeShare = CrimeShare(crimeType: string, count: nat, percentage: real)

  /** Each row with its share of `total`, in percent. */
  function SharesOf(rows: seq<Group<string>>, total: nat): (t: seq<CrimeShare>)
    ensures |t| == |rows|
    ensures forall i :: 0 <= i < |rows| ==> t[i] == CrimeShare(rows[i].key, rows[i].count, Percent(rows[i].count, total))
  {
    if rows == [] then []
    else [CrimeShare(rows[0].key, rows[0].count, Percent(rows[0].count, total))] + SharesOf(rows[1..], total)
  }

  function PercentSum(t: seq<CrimeShare>): real {
    if t == [] then 0.0 else t[0].percentage + PercentSum(t[1..])
  }

  lemma {:induction false} CountAtMostTotal(rows: seq<Group<string>>, i: nat)
    requires i < |rows|
    ensures rows[i].count <= TotalCount(rows)
  {
    if i > 0 {
      CountAtMostTotal(rows[1..], i - 1);
    }
  }

  /** The percentage column: each count over the sum of the counts shown
      (not over the table size); every row reads 0 when that sum is 0. */
  function CrimeStatsTable(rows: seq<Group<string>>): (t: seq<CrimeShare>)
    ensures |t| == |rows|
    ensures forall i :: 0 <= i < |rows| ==> t[i].crimeType == rows[i].key && t[i].count == rows[i].count
    ensures TotalCount(rows) == 0 ==> forall i :: 0 <= i < |t| ==> t[i].percentage == 0.0
    ensures TotalCount(rows) > 0 ==> forall i :: 0 <= i < |t| ==>
              t[i].percentage == (rows[i].count as real) / (TotalCount(rows) as real) * 100.0
    ensures forall i :: 0 <= i < |t| ==> 0.0 <= t[i].percentage <= 100.0
  {
    var t := SharesOf(rows, TotalCount(rows));
    forall i | 0 <= i < |rows| ensures rows[i].count <= TotalCount(rows) {
      CountAtMostTotal(rows, i);
    }
    t
  }

  lemma SharesAdd(a: real, b: real, d: real)
    requires d > 0.0
    ensures a / d * 100.0 + b / d * 100.0 == (a + b) / d * 100.0
  {
  }

  lemma {:induction false} SharesSum(rows: seq<Group<string>>, d: nat)
    requires d > 0
    ensures PercentSum(SharesOf(rows, d)) == (TotalCount(rows) as real) / (d as real) * 100.0
  {
    if rows != [] {
      var t := SharesOf(rows, d);
      assert t == [t[0]] + SharesOf(rows[1..], d);
      assert t[1..] == SharesOf(rows[1..], d);
      SharesSum(rows[1..], d);
      SharesAdd(rows[0].count as real, TotalCount(rows[1..]) as real, d as real);
    }
  }

  /** With a positive denominator the shares add up to 100 before rounding. */
  lemma CrimeSharesSumTo100(rows: seq<Group<string>>)
    requires TotalCount(rows) > 0
    ensures PercentSum(CrimeStatsTable(rows)) == 100.0
  {
    var d := TotalCount(rows) as real;
    SharesSum(rows, TotalCount(rows));
    assert d / d == 1.0;
  }

  /** Two categories with 2 and 1 rows read 200/3 % and 100/3 %: the shares
      are of the rows shown, whatever the size of the table. */
  lemma CrimeStatsTableExample()
    ensures var t := CrimeStatsTable([Group("A", 2), Group("B", 1)]);
      t[0].percentage == 200.0 / 3.0 && t[1].percentage == 100.0 / 3.0
  {
    var rows := [Group("A", 2), Group("B", 1)];
    assert TotalCount(rows) == 3 by {
      assert rows[1..] == [Group("B", 1)];
      assert rows[1..][1..] == [];
    }
  }

  /** The table the dashboard builds from the ten most frequent categories. */
  function CategoryShareTable(s: seq<Record>): (t: seq<CrimeShare>)
    ensures |t| == Min(10, |Categories(s)|)
    ensures forall i :: 0 <= i < |t| ==> t[i].count == KeyCount(s, CategoryOf, t[i].crimeType) >= 1
    ensures |s| > 0 ==> PercentSum(t) == 100.0
  {
    var rows := TopCrimeTypes(s, 10);
    var t := CrimeStatsTable(rows);
    TopTenDenominator(s);
    assert |s| > 0 ==> PercentSum(t) == 100.0 by {
      if |s| > 0 {
        CrimeSharesSumTo100(rows);
      }
    }
    ShareRowsCounted(s, rows, t);
    t
  }

  lemma ShareRowsCounted(s: seq<Record>, rows: seq<Group<string>>, t: seq<CrimeShare>)
    requires rows == TopCrimeTypes(s, 10) && t == CrimeStatsTable(rows)
    ensures forall i :: 0 <= i < |t| ==> t[i].count == KeyCount(s, CategoryOf, t[i].crimeType) >= 1
  {
    forall i | 0 <= i < |t| ensures t[i].count == KeyCount(s, CategoryOf, t[i].crimeType) >= 1 {
      assert t[i].crimeType == rows[i].key && t[i].count == rows[i].count;
      CategoryPresent(s, rows[i].key);
    }
  }

  lemma CategoryPresent(s: seq<Record>, c: string)
    requires c in Categories(s)
    ensures KeyCount(s, CategoryOf, c) >= 1
  {
    var x :| x in s && x.category == c;
    assert CategoryOf(x) in Map(s, CategoryOf);
    KeyCountPresent(s, CategoryOf, c);
  }

  /** The denominator of the percentage table is positive on a non-empty
      table, never exceeds the row count, and equals it when there are at
      most ten categories; with more, it counts only the ten shown. */
  lemma TopTenDenominator(s: seq<Record>)
    ensures TotalCount(TopCrimeTypes(s, 10)) <= |s|
    ensures |s| > 0 ==> TotalCount(TopCrimeTypes(s, 10)) > 0
    ensures |Categories(s)| <= 10 ==> TotalCount(TopCrimeTypes(s, 10)) == |s|
  {
    var rows := TopCrimeTypes(s, 10);
    TopKTotal(CategoryCounts(s), 10);
    if |s| > 0 {
      assert s[0].category in Categories(s);
      CategoryPresent(s, rows[0].key);
      CountAtMostTotal(rows, 0);
    }
    if |Categories(s)| <= 10 {
      TopCrimeTypesComplete(s, 10);
    }
  }
  /** One bar of "Arrest Rate by Crime Type": a category, its arrests, its
      rows and the arrest share in percent. */
  datatype ArrestRow = ArrestRow(crimeType: string, arrests: nat, total: nat, arrestRate: real)

  /** The `agg({"arrest": ["sum", "count"]})` row of the category counted in `g`. */
  function ArrestRowOf(s: seq<Record>, g: Group<string>): ArrestRow {
    var arrests := KeyCount(Filter(s, Arrested), CategoryOf, g.key);
    ArrestRow(g.key, arrests, g.count, Percent(arrests, g.count))
  }

  function ArrestRows(s: seq<Record>, gs: seq<Group<string>>): (r: seq<ArrestRow>)
    ensures |r| == |gs|
    ensures forall i :: 0 <= i < |gs| ==> r[i] == ArrestRowOf(s, gs[i])
  {
    if gs == [] then [] else [ArrestRowOf(s, gs[0])] + ArrestRows(s, gs[1..])
  }

  /** Arrests by category for the eight categories with the most rows
      (`nlargest(8, "total")`). */
  function ArrestByType(s: seq<Record>): (r: seq<ArrestRow>)
    ensures |r| == Min(8, |Categories(s)|)
    ensures forall i :: 0 <= i < |r| ==> r[i].crimeType in Categories(s) && r[i].total == KeyCount(s, CategoryOf, r[i].crimeType) >= 1
    ensures forall i :: 0 <= i < |r| ==> r[i].arrests == KeyCount(Filter(s, Arrested), CategoryOf, r[i].crimeType) <= r[i].total
    ensures forall i :: 0 <= i < |r| ==> r[i].arrestRate == (r[i].arrests as real) / (r[i].total as real) * 100.0
    ensures forall i :: 0 <= i < |r| ==> 0.0 <= r[i].arrestRate <= 100.0
  {
    var top := TopK(CategoryCounts(s), 8);
    var r := ArrestRows(s, top);
    ArrestRowsCounted(s, top, r);
    r
  }

  lemma ArrestRowsCounted(s: seq<Record>, top: seq<Group<string>>, r: seq<ArrestRow>)
    requires top == TopK(CategoryCounts(s), 8) && r == ArrestRows(s, top)
    ensures forall i :: 0 <= i < |r| ==> r[i].crimeType in Categories(s) && r[i].total == KeyCount(s, CategoryOf, r[i].crimeType) >= 1
    ensures forall i :: 0 <= i < |r| ==> r[i].arrests == KeyCount(Filter(s, Arrested), CategoryOf, r[i].crimeType) <= r[i].total
  {
    forall i | 0 <= i < |r|
      ensures r[i].crimeType in Categories(s) && r[i].total == KeyCount(s, CategoryOf, r[i].crimeType) >= 1
      ensures r[i].arrests == KeyCount(Filter(s, Arrested), CategoryOf, r[i].crimeType) <= r[i].total
    {
      assert r[i] == ArrestRowOf(s, top[i]);
      assert top[i] in top;
      assert top[i] in CategoryCounts(s);
      CategoryPresent(s, top[i].key);
      KeyCountOfFilterAtMost(s, Arrested, CategoryOf, top[i].key);
    }
  }

  /** The kept rows run from the most rows down, one per category. */
  lemma ArrestByTypeRanked(s: seq<Record>)
    ensures forall i, j :: 0 <= i < j < |ArrestByType(s)| ==> ArrestByType(s)[i].total >= ArrestByType(s)[j].total
    ensures forall i, j :: 0 <= i < j < |ArrestByType(s)| ==> ArrestByType(s)[i].crimeType != ArrestByType(s)[j].crimeType
  {
    var top := TopK(CategoryCounts(s), 8);
    TopKKeys(CategoryCounts(s), 8);
    ArrestRowsMirror(s, top);
  }

  lemma ArrestRowsMirror(s: seq<Record>, top: seq<Group<string>>)
    requires top == TopK(CategoryCounts(s), 8)
    ensures |ArrestByType(s)| == |top|
    ensures forall i :: 0 <= i < |top| ==> ArrestByType(s)[i].crimeType == top[i].key && ArrestByType(s)[i].total == top[i].count
  {
    var r := ArrestByType(s);
    assert r == ArrestRows(s, top);
    forall i | 0 <= i < |top| ensures r[i].crimeType == top[i].key && r[i].total == top[i].count {
      assert r[i] == ArrestRowOf(s, top[i]);
    }
  }

  /** A category left out has no more rows than the last one kept. */
  lemma ArrestByTypeLeftOut(s: seq<Record>, c: string)
    requires c in Categories(s)
    requires forall i :: 0 <= i < |ArrestByType(s)| ==> ArrestByType(s)[i].crimeType != c
    ensures |ArrestByType(s)| > 0 ==> KeyCount(s, CategoryOf, c) <= ArrestByType(s)[|ArrestByType(s)| - 1].total
  {
    var gs := CategoryCounts(s);
    var top := TopK(gs, 8);
    ArrestRowsMirror(s, top);
    var g := Group(c, KeyCount(s, CategoryOf, c));
    assert g in gs;
    assert g !in top;
    if |top| > 0 {
      TopKLeftOut(gs, 8, g);
    }
  }

  /** A category's `count` is the size of that category's own rows. */
  lemma {:induction false} CategorySize(s: seq<Record>, c: string)
    ensures |Filter(s, InCategory(c))| == KeyCount(s, CategoryOf, c)
  {
    if s != [] {
      CategorySize(s[1..], c);
    }
  }

  /** A category's `sum` of arrests is the arrest count of that category's
      own rows. */
  lemma {:induction false} CategoryArrests(s: seq<Record>, c: string)
    ensures |Filter(Filter(s, InCategory(c)), Arrested)| == KeyCount(Filter(s, Arrested), CategoryOf, c)
  {
    if s != [] {
      CategoryArrests(s[1..], c);
      var mine := Filter(s, InCategory(c));
      var mine' := Filter(s[1..], InCategory(c));
      var arrested := Filter(s, Arrested);
      var arrested' := Filter(s[1..], Arrested);
      if s[0].category == c {
        assert mine == [s[0]] + mine';
        assert mine[0] == s[0] && mine[1..] == mine';
      } else {
        assert mine == mine';
      }
      if s[0].arrest {
        assert arrested == [s[0]] + arrested';
        assert arrested[0] == s[0] && arrested[1..] == arrested';
      } else {
        assert arrested == arrested';
      }
    }
  }

  /** Each bar's rate is the arrest rate of its category's rows alone. */
  lemma ArrestRowIsCategoryRate(s: seq<Record>, i: nat)
    requires i < |ArrestByType(s)|
    ensures ArrestByType(s)[i].arrestRate == ArrestRate(Filter(s, InCategory(ArrestByType(s)[i].crimeType)))
  {
    CategorySize(s, ArrestByType(s)[i].crimeType);
    CategoryArrests(s, ArrestByType(s)[i].crimeType);
  }

  /** "Cluster Size Distribution": the rows of each hotspot, noise excluded,
      largest first. */
  function ClusterSizes(s: seq<Record>): (r: seq<Group<int>>)
    ensures |r| == |ClusterIds(s)|
    ensures SortedByCount(r)
    ensures forall i :: 0 <= i < |r| ==> r[i].key in ClusterIds(s) && r[i].count == KeyCount(s, ClusterOf, r[i].key) >= 1
  {
    var ids := ClusterIdList(s);
    var gs := GroupCounts(HotspotRecords(s), ClusterOf, ids);
    var r := RankByCount(gs);
    ClusterRowsCounted(s, ids, gs, r);
    r
  }

  lemma ClusterRowsCounted(s: seq<Record>, ids: seq<int>, gs: seq<Group<int>>, r: seq<Group<int>>)
    requires ids == ClusterIdList(s) && gs == GroupCounts(HotspotRecords(s), ClusterOf, ids)
    requires multiset(r) == multiset(gs)
    ensures forall i :: 0 <= i < |r| ==> r[i].key in ClusterIds(s) && r[i].count == KeyCount(s, ClusterOf, r[i].key) >= 1
  {
    forall i | 0 <= i < |r| ensures r[i].key in ClusterIds(s) && r[i].count == KeyCount(s, ClusterOf, r[i].key) >= 1 {
      assert r[i] in multiset(gs);
      var j :| 0 <= j < |gs| && gs[j] == r[i];
      var id := ids[j];
      assert r[i] == Group(id, KeyCount(HotspotRecords(s), ClusterOf, id));
      assert id in ClusterIds(s);
      KeyCountOfFilter(s, InHotspot, ClusterOf, id);
      var x :| x in s && x.cluster != Noise && x.cluster == id;
      assert ClusterOf(x) in Map(s, ClusterOf);
      KeyCountPresent(s, ClusterOf, id);
    }
  }

  /** Every hotspot has exactly one row, and the sizes account for every
      non-noise record: sizes plus noise make up the table. */
  lemma ClusterSizesCover(s: seq<Record>)
    ensures DistinctKeys(ClusterSizes(s))
    ensures forall id :: id in ClusterIds(s) ==> HasKey(ClusterSizes(s), id)
    ensures TotalCount(ClusterSizes(s)) == |HotspotRecords(s)|
    ensures TotalCount(ClusterSizes(s)) + |Filter(s, IsNoise)| == |s|
  {
    var ids := ClusterIdList(s);
    var gs := GroupCounts(HotspotRecords(s), ClusterOf, ids);
    var r := ClusterSizes(s);
    AscendingHasNoDuplicates(ids);
    GroupCountsRows(HotspotRecords(s), ClusterOf, ids);
    RankByCountKeys(gs);
    RankByCountTotal(gs);
    forall id | id in ClusterIds(s) ensures HasKey(r, id) {
      SameElementsSameKeys(r, gs, id);
    }
    assert forall x :: x in HotspotRecords(s) ==> ClusterOf(x) in ids by {
      forall x | x in HotspotRecords(s) ensures ClusterOf(x) in ids {
        assert x.cluster in ClusterIds(s);
      }
    }
    GroupCountsTotal(HotspotRecords(s), ClusterOf, ids);
    NoiseSplit(s);
  }

  /** "Largest Hotspot": the first, hence largest, cluster size; 0 when every
      record is noise. */
  function LargestHotspot(s: seq<Record>): (n: nat)
    ensures n == 0 <==> ClusterIds(s) == {}
    ensures forall id :: id in ClusterIds(s) ==> KeyCount(s, ClusterOf, id) <= n
    ensures n > 0 ==> exists id :: id in ClusterIds(s) && KeyCount(s, ClusterOf, id) == n
  {
    var cs := ClusterSizes(s);
    ClusterSizesCover(s);
    if |cs| == 0 then 0
    else
      assert forall id :: id in ClusterIds(s) ==> KeyCount(s, ClusterOf, id) <= cs[0].count by {
        forall id | id in ClusterIds(s) ensures KeyCount(s, ClusterOf, id) <= cs[0].count {
          var i :| 0 <= i < |cs| && cs[i].key == id;
        }
      }
      cs[0].count
  }

  /** "Peak Hour": the hour with the most rows, the earliest one on a tie
      (`idxmax` over ascending hours). The dashboard stops before this point
      when the selection is empty. */
  function PeakHour(s: seq<Record>): (h: int)
    requires |s| > 0
    ensures exists x :: x in s && x.hour == h
    ensures forall x :: x in s ==> KeyCount(s, HourOf, x.hour) <= KeyCount(s, HourOf, h)
    ensures forall x :: x in s && x.hour < h ==> KeyCount(s, HourOf, x.hour) < KeyCount(s, HourOf, h)
  {
    var d := HourlyDistribution(s);
    assert |d| > 0 by {
      var j := HourRow(s, s[0]);
    }
    var i := FirstMax(d);
    PeakIsFirstMax(s, d, i);
    d[i].key
  }

  lemma PeakIsFirstMax(s: seq<Record>, d: seq<Group<int>>, i: nat)
    requires d == HourlyDistribution(s) && |d| > 0 && i == FirstMax(d)
    ensures exists x :: x in s && x.hour == d[i].key
    ensures forall x :: x in s ==> KeyCount(s, HourOf, x.hour) <= d[i].count
    ensures forall x :: x in s && x.hour < d[i].key ==> KeyCount(s, HourOf, x.hour) < d[i].count
    ensures d[i].count == KeyCount(s, HourOf, d[i].key)
  {
    var hours := SortedDistinct(Map(s, HourOf));
    assert d[i].key == hours[i];
    MapMember(s, HourOf, hours[i]);
    forall x | x in s
      ensures KeyCount(s, HourOf, x.hour) <= d[i].count
      ensures x.hour < d[i].key ==> KeyCount(s, HourOf, x.hour) < d[i].count
    {
      var j := HourRow(s, x);
      if x.hour < d[i].key {
        assert j < i;
      }
    }
  }

  /** The row of the hourly table that counts record `x`. */
  lemma HourRow(s: seq<Record>, x: Record) returns (j: nat)
    requires x in s
    ensures j < |HourlyDistribution(s)| && HourlyDistribution(s)[j].key == x.hour
  {
    var hours := SortedDistinct(Map(s, HourOf));
    assert HourOf(x) in Map(s, HourOf);
    j :| 0 <= j < |hours| && hours[j] == x.hour;
  }
}
