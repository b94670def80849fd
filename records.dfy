/** The incident table the dashboard aggregates: one record per crime, each
    already labelled with a spatio-temporal cluster. */
module Records {
  import opened Seqs

  /** Timestamps are integer nanoseconds, the resolution of the parsed
      `date` column. */
  const NanosPerDay: int := 86_400_000_000_000

  /** The cluster label of an incident that belongs to no hotspot. */
  const Noise: int := -1

  /** Day of the week as derived from the timestamp: 0 is Monday, 6 is Sunday. */
  type Weekday = d: int | 0 <= d < 7

  /** `dt.day_name()`: the English name of a weekday. */
  function DayName(w: Weekday): string {
    match w
    case 0 => "Monday"
    case 1 => "Tuesday"
    case 2 => "Wednesday"
    case 3 => "Thursday"
    case 4 => "Friday"
    case 5 => "Saturday"
    case _ => "Sunday"
  }

  /** The aggregated columns of one row: `date`, `hour`, the weekday of
      `date`, `primary_type`, `arrest` and `st_cluster`. */
  datatype Record = Record(
    date: int,
    hour: int,
    weekday: Weekday,
    category: string,
    arrest: bool,
    cluster: int)

  /** The sidebar's hotspot choice: "All", or one cluster id. */
  datatype Selector = All | Cluster(id: int)

  function HourOf(r: Record): int { r.hour }

  function ClusterOf(r: Record): int { r.cluster }

  function CategoryOf(r: Record): string { r.category }

  predicate IsNoise(r: Record) { r.cluster == Noise }

  predicate InHotspot(r: Record) { r.cluster != Noise }

  predicate Arrested(r: Record) { r.arrest }

  /** The rows of `date` at or after `cutoff`. */
  function Within(cutoff: int): Record -> bool {
    (x: Record) => x.date >= cutoff
  }

  /** The rows labelled `id`. */
  function InCluster(id: int): Record -> bool {
    (x: Record) => x.cluster == id
  }

  /** The rows of category `c`. */
  function InCategory(c: string): Record -> bool {
    (x: Record) => x.category == c
  }

  /** The records that belong to some hotspot, in order. */
  function HotspotRecords(s: seq<Record>): seq<Record> {
    Filter(s, InHotspot)
  }

  /** The distinct cluster ids other than the noise label. */
  function ClusterIds(s: seq<Record>): set<int> {
    set r | r in s && r.cluster != Noise :: r.cluster
  }

  /** The distinct categories. */
  function Categories(s: seq<Record>): set<string> {
    set r | r in s :: r.category
  }

  /** The distinct non-noise cluster ids, ascending. */
  function ClusterIdList(s: seq<Record>): (ids: seq<int>)
    ensures StrictlyAscending(ids)
    ensures forall id :: id in ids <==> id in ClusterIds(s)
    ensures |ids| == |ClusterIds(s)| <= |HotspotRecords(s)|
  {
    var ids := SortedDistinct(Map(HotspotRecords(s), ClusterOf));
    assert Elements(ids) == ClusterIds(s) by {
      forall id ensures id in ids <==> id in ClusterIds(s) {
        if id in ids {
          MapMember(HotspotRecords(s), ClusterOf, id);
        }
        if id in ClusterIds(s) {
          var x :| x in s && x.cluster != Noise && x.cluster == id;
          assert ClusterOf(x) in Map(HotspotRecords(s), ClusterOf);
        }
      }
    }
    AscendingHasNoDuplicates(ids);
    DistinctElementsCount(ids);
    ids
  }

  /** The distinct categories in order of first occurrence. */
  function CategoryList(s: seq<Record>): (cs: seq<string>)
    ensures NoDuplicates(cs)
    ensures forall c :: c in cs <==> c in Categories(s)
    ensures |cs| == |Categories(s)|
  {
    var cs := DistinctInOrder(Map(s, CategoryOf));
    assert Elements(cs) == Categories(s) by {
      forall c ensures c in cs <==> c in Categories(s) {
        if c in cs {
          MapMember(s, CategoryOf, c);
        }
        if c in Categories(s) {
          var x :| x in s && x.category == c;
          assert CategoryOf(x) in Map(s, CategoryOf);
        }
      }
    }
    DistinctElementsCount(cs);
    cs
  }

  /** `part / whole * 100` on the exact counts, and 0 for an empty whole:
      every rate of the dashboard avoids dividing by zero this way. */
  function Percent(part: nat, whole: nat): (p: real)
    ensures part <= whole ==> 0.0 <= p <= 100.0
    ensures part <= whole ==> (p == 0.0 <==> part == 0)
    ensures p == 100.0 <==> whole > 0 && part == whole
  {
    if whole == 0 then 0.0 else (part as real) / (whole as real) * 100.0
  }
}
