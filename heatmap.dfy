/** The weekday-by-hour grid of the "Temporal Patterns" tab
    (`dashboard/app.py`): records counted per (weekday, hour) pair, pivoted
    to one row per weekday and one column per hour, then padded to seven
    rows Monday to Sunday and 24 columns 0 to 23. */
module Heatmap {
  import opened Seqs
  import opened Groups
  import opened Records

  /** `day_order`, the grid's row labels; row `d` holds weekday `d`. */
  const DayOrder: seq<string> := ["Monday", "Tuesday", "Wednesday", "Thursday", "Friday", "Saturday", "Sunday"]

  /** The rows run Monday to Sunday, each labelled once: the row labelled
      with a record's day name is the row of its weekday and no other. */
  lemma DayOrderLabels()
    ensures |DayOrder| == 7 && NoDuplicates(DayOrder)
    ensures forall d: Weekday :: DayOrder[d] == DayName(d)
    ensures forall d: Weekday, w: Weekday :: DayOrder[d] == DayName(w) <==> d == w
  {
  }

  /** A grid cell: a count, or a gap the pivot left empty (NaN). */
  datatype Cell = Filled(n: nat) | Unfilled

  function SlotOf(x: Record): (int, int) { (x.weekday, x.hour) }

  /** The `groupby(["day_name", "hour"]).size()` entry of weekday `d`, hour `h`. */
  function PairCount(s: seq<Record>, d: int, h: int): nat {
    KeyCount(s, SlotOf, (d, h))
  }

  /** Weekday `d` is a row of the pivot. */
  predicate DayObserved(s: seq<Record>, d: int) {
    exists x :: x in s && x.weekday == d
  }

  /** Hour `h` is a column of the pivot. */
  predicate HourObserved(s: seq<Record>, h: int) {
    exists x :: x in s && x.hour == h
  }

  /** The pivot after `fillna(0)` and `reindex(day_order)`: an observed
      weekday holds its pair counts, 0 where a pair is missing; a weekday
      added by the reindex holds gaps. Cells of hours that are not yet
      columns are gaps as well. */
  function Pivoted(s: seq<Record>, d: int, h: int): Cell {
    if HourObserved(s, h) && DayObserved(s, d) then Filled(PairCount(s, d, h)) else Unfilled
  }

  /** The grid shown: every hour column missing from the pivot is added
      as zeros in all seven rows. */
  function HeatCell(s: seq<Record>, d: int, h: int): Cell {
    if !HourObserved(s, h) then Filled(0)
    else if DayObserved(s, d) then Filled(PairCount(s, d, h))
    else Unfilled
  }

  /** Builds the 7 x 24 grid: the pivot, then the loop over the hours 0..23
      that adds each missing column as zeros. */
  method BuildHeatmap(s: seq<Record>) returns (rows: seq<string>, grid: array2<Cell>)
    ensures fresh(grid)
    ensures grid.Length0 == |rows| == 7 && grid.Length1 == 24
    ensures NoDuplicates(rows)
    ensures forall d :: 0 <= d < 7 ==> rows[d] == DayName(d)
    ensures forall d, h :: 0 <= d < 7 && 0 <= h < 24 ==> grid[d, h] == HeatCell(s, d, h)
  {
    rows := DayOrder;
    DayOrderLabels();
    grid := new Cell[7, 24]((d, h) => Pivoted(s, d, h));
    for h := 0 to 24
      invariant forall d, k :: 0 <= d < 7 && 0 <= k < h ==> grid[d, k] == HeatCell(s, d, k)
      invariant forall d, k :: 0 <= d < 7 && h <= k < 24 ==> grid[d, k] == Pivoted(s, d, k)
    {
      if !HourObserved(s, h) {
        forall d | 0 <= d < 7 {
          grid[d, h] := Filled(0);
        }
      }
    }
  }

  /** The record count a cell stands for; a gap stands for none. */
  function CellCount(c: Cell): nat {
    match c
    case Filled(n) => n
    case Unfilled => 0
  }

  /** Every filled cell holds the exact number of records of its weekday and
      hour, and a weekday present in the data has no gap in its row. A cell
      is a gap exactly when its weekday never occurs while its hour does:
      `fillna` runs before `reindex`, and only the missing hours are
      zero-filled afterwards. */
  lemma HeatCellContents(s: seq<Record>, d: int, h: int)
    ensures HeatCell(s, d, h).Filled? ==> HeatCell(s, d, h).n == PairCount(s, d, h)
    ensures DayObserved(s, d) ==> HeatCell(s, d, h) == Filled(PairCount(s, d, h))
    ensures HeatCell(s, d, h) == Unfilled <==> !DayObserved(s, d) && HourObserved(s, h)
    ensures CellCount(HeatCell(s, d, h)) == PairCount(s, d, h)
  {
    if !HourObserved(s, h) || !DayObserved(s, d) {
      KeyCountAbsent(s, SlotOf, (d, h));
    }
  }

  /** The records counted in the cells of column `h`, rows 0 to n - 1. */
  function ColumnTotal(s: seq<Record>, h: int, n: nat): nat {
    if n == 0 then 0 else ColumnTotal(s, h, n - 1) + CellCount(HeatCell(s, n - 1, h))
  }

  function PairSum(s: seq<Record>, h: int, n: nat): nat {
    if n == 0 then 0 else PairSum(s, h, n - 1) + PairCount(s, n - 1, h)
  }

  lemma {:induction false} PairSumStep(s: seq<Record>, h: int, n: nat)
    requires s != []
    ensures PairSum(s, h, n) == PairSum(s[1..], h, n) + (if s[0].hour == h && s[0].weekday < n then 1 else 0)
  {
    if n > 0 {
      PairSumStep(s, h, n - 1);
    }
  }

  lemma {:induction false} PairSumOfEmpty(s: seq<Record>, h: int, n: nat)
    requires s == []
    ensures PairSum(s, h, n) == 0
  {
    if n > 0 {
      PairSumOfEmpty(s, h, n - 1);
    }
  }

  lemma {:induction false} PairSumIsHourCount(s: seq<Record>, h: int)
    ensures PairSum(s, h, 7) == KeyCount(s, HourOf, h)
  {
    if s == [] {
      PairSumOfEmpty(s, h, 7);
    } else {
      PairSumIsHourCount(s[1..], h);
      PairSumStep(s, h, 7);
    }
  }

  lemma {:induction false} ColumnTotalIsPairSum(s: seq<Record>, h: int, n: nat)
    ensures ColumnTotal(s, h, n) == PairSum(s, h, n)
  {
    if n > 0 {
      ColumnTotalIsPairSum(s, h, n - 1);
      HeatCellContents(s, n - 1, h);
    }
  }

  /** Each column of the grid adds up to that hour's row of the hourly
      distribution (0 for an hour that never occurs). */
  lemma HeatmapColumn(s: seq<Record>, h: int)
    ensures ColumnTotal(s, h, 7) == KeyCount(s, HourOf, h)
  {
    ColumnTotalIsPairSum(s, h, 7);
    PairSumIsHourCount(s, h);
  }

  /** The 168 (weekday, hour) cells, row by row. */
  function Slots(): (r: seq<(int, int)>)
    ensures |r| == 168
    ensures forall i :: 0 <= i < 168 ==> r[i] == (i / 24, i % 24)
  {
    seq(168, i requires 0 <= i < 168 => (i / 24, i % 24))
  }

  function SumCells(s: seq<Record>, slots: seq<(int, int)>): nat {
    if slots == [] then 0 else CellCount(HeatCell(s, slots[0].0, slots[0].1)) + SumCells(s, slots[1..])
  }

  /** The records the whole grid accounts for. */
  function GridTotal(s: seq<Record>): nat {
    SumCells(s, Slots())
  }

  lemma {:induction false} SumCellsIsGroupTotal(s: seq<Record>, slots: seq<(int, int)>)
    ensures SumCells(s, slots) == TotalCount(GroupCounts(s, SlotOf, slots))
  {
    if slots != [] {
      SumCellsIsGroupTotal(s, slots[1..]);
      HeatCellContents(s, slots[0].0, slots[0].1);
    }
  }

  lemma SlotsCover(d: int, h: int)
    requires 0 <= d < 7 && 0 <= h < 24
    ensures (d, h) in Slots()
  {
    assert Slots()[d * 24 + h] == (d, h);
  }

  lemma SlotsDistinct()
    ensures NoDuplicates(Slots())
  {
    forall i, j | 0 <= i < j < |Slots()| ensures Slots()[i] != Slots()[j] {
      assert i == i / 24 * 24 + i % 24 && j == j / 24 * 24 + j % 24;
    }
  }

  /** When every hour is one of 0..23, the grid accounts for every record
      exactly once. */
  lemma HeatmapTotal(s: seq<Record>)
    requires forall x :: x in s ==> 0 <= x.hour < 24
    ensures GridTotal(s) == |s|
  {
    SumCellsIsGroupTotal(s, Slots());
    SlotsDistinct();
    forall x | x in s ensures SlotOf(x) in Slots() {
      SlotsCover(x.weekday, x.hour);
    }
    GroupCountsTotal(s, SlotOf, Slots());
  }
}
