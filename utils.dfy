/** `dashboard/utils.py`: the query functions the dashboard applies to the
    incident table. None of them changes its input. */
module Utils {
  import opened Seqs
  import opened Groups
  import opened Records

  /** `apply_time_filter`: the records dated no earlier than `days` days before
      `now`. There is no upper bound, so records dated after `now` stay. */
  function ApplyTimeFilter(s: seq<Record>, now: int, days: int): (r: seq<Record>)
    ensures forall x :: x in r ==> x in s && x.date >= now - days * NanosPerDay
    ensures forall x :: x in s && x.date >= now - days * NanosPerDay ==> x in r
  {
    var cutoff := now - days * NanosPerDay;
    Filter(s, Within(cutoff))
  }

  /** The window keeps the original order of the rows it selects. */
  lemma TimeFilterKeepsOrder(a: seq<Record>, b: seq<Record>, now: int, days: int)
    ensures ApplyTimeFilter(a + b, now, days) == ApplyTimeFilter(a, now, days) + ApplyTimeFilter(b, now, days)
  {
    FilterConcat(a, b, Within(now - days * NanosPerDay));
  }

  /** `filter_by_cluster`: "All" leaves the table as it is; a cluster id keeps
      exactly the rows labelled with it, noise included when asked for. */
  function FilterByCluster(s: seq<Record>, sel: Selector): (r: seq<Record>)
    ensures sel.All? ==> r == s
    ensures sel.Cluster? ==> forall x :: x in r ==> x in s && x.cluster == sel.id
    ensures sel.Cluster? ==> forall x :: x in s && x.cluster == sel.id ==> x in r
  {
    match sel
    case All => s
    case Cluster(id) => Filter(s, InCluster(id))
  }

  /** The cluster view keeps the original order of the rows it selects. */
  lemma ClusterFilterKeepsOrder(a: seq<Record>, b: seq<Record>, sel: Selector)
    ensures FilterByCluster(a + b, sel) == FilterByCluster(a, sel) + FilterByCluster(b, sel)
  {
    if sel.Cluster? {
      FilterConcat(a, b, InCluster(sel.id));
    }
  }

  lemma ClusterFilterIdempotent(s: seq<Record>, sel: Selector)
    ensures FilterByCluster(FilterByCluster(s, sel), sel) == FilterByCluster(s, sel)
  {
    if sel.Cluster? {
      FilterIdempotent(s, InCluster(sel.id));
    }
  }

  /** A cluster's view has as many rows as the cluster has records. */
  lemma {:induction false} ClusterViewSize(s: seq<Record>, id: int)
    ensures |FilterByCluster(s, Cluster(id))| == KeyCount(s, ClusterOf, id)
  {
    if s != [] {
      ClusterViewSize(s[1..], id);
    }
  }

  /** The three headline figures: row count, active hotspots, noise share. */
  datatype Overview = Overview(total: nat, hotspots: nat, noisePct: real)

  /** The hotspot records and the noise records split the table. */
  lemma {:induction false} NoiseSplit(s: seq<Record>)
    ensures |HotspotRecords(s)| + |Filter(s, IsNoise)| == |s|
  {
    if s != [] {
      NoiseSplit(s[1..]);
    }
  }

  lemma NoHotspotsMeansAllNoise(s: seq<Record>)
    ensures ClusterIds(s) == {} <==> forall x :: x in s ==> x.cluster == Noise
  {
    if exists x :: x in s && x.cluster != Noise {
      var x :| x in s && x.cluster != Noise;
      assert x.cluster in ClusterIds(s);
    }
  }

  /** `get_overview_metrics`: the row count, the number of distinct cluster
      ids other than noise, and the noise share in percent (0 for no rows). */
  function GetOverviewMetrics(s: seq<Record>): (m: Overview)
    ensures m.total == |s|
    ensures m.hotspots == |ClusterIds(s)|
    ensures m.hotspots <= |HotspotRecords(s)| <= m.total
    ensures m.hotspots == 0 <==> forall x :: x in s ==> x.cluster == Noise
    ensures m.total == 0 ==> m.noisePct == 0.0
    ensures m.total > 0 ==> m.noisePct == (|Filter(s, IsNoise)| as real) / (m.total as real) * 100.0
    ensures 0.0 <= m.noisePct <= 100.0
    ensures m.noisePct == 0.0 <==> forall x :: x in s ==> x.cluster != Noise
    ensures m.noisePct == 100.0 <==> m.total > 0 && forall x :: x in s ==> x.cluster == Noise
  {
    var ids := ClusterIdList(s);
    NoHotspotsMeansAllNoise(s);
    FilterAllOrNone(s, IsNoise);
    Overview(|s|, |ClusterIds(s)|, Percent(|Filter(s, IsNoise)|, |s|))
  }

  lemma HourKeys(s: seq<Record>, hours: seq<int>)
    requires hours == SortedDistinct(Map(s, HourOf))
    ensures NoDuplicates(hours)
    ensures forall x :: x in s ==> x.hour in hours
    ensures forall h :: h in hours <==> exists x :: x in s && x.hour == h
    ensures forall h :: h in hours ==> KeyCount(s, HourOf, h) > 0
  {
    AscendingHasNoDuplicates(hours);
    forall x | x in s ensures x.hour in hours {
      assert HourOf(x) in Map(s, HourOf);
    }
    forall h | h in hours ensures KeyCount(s, HourOf, h) > 0 && exists x :: x in s && x.hour == h {
      KeyCountPresent(s, HourOf, h);
      MapMember(s, HourOf, h);
    }
  }

  /** `hourly_distribution`: one row per hour value present, ascending, with
      the number of rows at that hour. */
  function HourlyDistribution(s: seq<Record>): (r: seq<Group<int>>)
    ensures forall i, j :: 0 <= i < j < |r| ==> r[i].key < r[j].key
    ensures forall i :: 0 <= i < |r| ==> r[i].count == KeyCount(s, HourOf, r[i].key) >= 1
  {
    var hours := SortedDistinct(Map(s, HourOf));
    HourKeys(s, hours);
    GroupCounts(s, HourOf, hours)
  }

  /** The hourly table has a row for exactly the hours present, so there is
      no zero-filled hour. */
  lemma HourlyDistributionKeys(s: seq<Record>)
    ensures forall h :: HasKey(HourlyDistribution(s), h) <==> exists x :: x in s && x.hour == h
  {
    var hours := SortedDistinct(Map(s, HourOf));
    HourKeys(s, hours);
    GroupCountsRows(s, HourOf, hours);
  }

  /** The hourly counts add up to the row count. */
  lemma HourlyDistributionTotal(s: seq<Record>)
    ensures TotalCount(HourlyDistribution(s)) == |s|
  {
    var hours := SortedDistinct(Map(s, HourOf));
    HourKeys(s, hours);
    GroupCountsTotal(s, HourOf, hours);
  }

  /** `value_counts()` of the category column before truncation: one row per
      distinct category with its number of rows. */
  function CategoryCounts(s: seq<Record>): (gs: seq<Group<string>>)
    ensures |gs| == |Categories(s)|
    ensures DistinctKeys(gs)
    ensures forall g :: g in gs ==> g.key in Categories(s) && g.count == KeyCount(s, CategoryOf, g.key)
    ensures forall c :: c in Categories(s) ==> Group(c, KeyCount(s, CategoryOf, c)) in gs
    ensures TotalCount(gs) == |s|
  {
    var cs := CategoryList(s);
    GroupCountsTotal(s, CategoryOf, cs);
    GroupCountsRows(s, CategoryOf, cs);
    GroupCounts(s, CategoryOf, cs)
  }

  /** `top_crime_types`: the `topN` most frequent categories with their
      counts, most frequent first. */
  function TopCrimeTypes(s: seq<Record>, topN: int): (r: seq<Group<string>>)
    ensures topN >= 0 ==> |r| == Min(topN, |Categories(s)|)
    ensures topN < 0 ==> |r| == Max(0, |Categories(s)| + topN)
    ensures DistinctKeys(r)
    ensures SortedByCount(r)
    ensures forall i :: 0 <= i < |r| ==> r[i].key in Categories(s) && r[i].count == KeyCount(s, CategoryOf, r[i].key)
  {
    TopKKeys(CategoryCounts(s), topN);
    TopK(CategoryCounts(s), topN)
  }

  /** A category left out of the ranking is no more frequent than the least
      frequent one kept. */
  lemma TopCrimeTypesLeftOut(s: seq<Record>, topN: int, c: string)
    requires c in Categories(s)
    requires var r := TopCrimeTypes(s, topN); |r| > 0 && !HasKey(r, c)
    ensures var r := TopCrimeTypes(s, topN); KeyCount(s, CategoryOf, c) <= r[|r| - 1].count
  {
    var r := TopCrimeTypes(s, topN);
    var g := Group(c, KeyCount(s, CategoryOf, c));
    assert g in CategoryCounts(s);
    TopKLeftOut(CategoryCounts(s), topN, g);
  }

  /** When `topN` admits every category, the ranking covers the whole table. */
  lemma TopCrimeTypesComplete(s: seq<Record>, topN: int)
    requires topN >= |Categories(s)|
    ensures forall c :: c in Categories(s) ==> HasKey(TopCrimeTypes(s, topN), c)
    ensures TotalCount(TopCrimeTypes(s, topN)) == |s|
  {
    var gs := CategoryCounts(s);
    var r := TopCrimeTypes(s, topN);
    TopKTotal(gs, topN);
    forall c | c in Categories(s) ensures HasKey(r, c) {
      var g := Group(c, KeyCount(s, CategoryOf, c));
      assert g in multiset(gs);
      var i :| 0 <= i < |r| && r[i] == g;
    }
  }

  /** `arrest_rate`: the share of rows with an arrest, in percent; 0 for no rows. */
  function ArrestRate(s: seq<Record>): (p: real)
    ensures |s| == 0 ==> p == 0.0
    ensures |s| > 0 ==> p == (|Filter(s, Arrested)| as real) / (|s| as real) * 100.0
    ensures 0.0 <= p <= 100.0
    ensures p == 0.0 <==> forall x :: x in s ==> !x.arrest
    ensures p == 100.0 <==> |s| > 0 && forall x :: x in s ==> x.arrest
  {
    FilterAllOrNone(s, Arrested);
    Percent(|Filter(s, Arrested)|, |s|)
  }
}
