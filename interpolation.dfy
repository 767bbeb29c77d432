/** The gap filling of Nichinoken.__interpolate_missing_dates: every date between two recorded
    dates is inserted, and its row coordinate is interpolated linearly (pandas'
    Series.interpolate, which treats the entries as equally spaced). */
module Interpolation {
  import opened Outcomes
  import opened Calendar
  import opened DateRows

  /** The table as get_schedule_list hands it over: valid dates in ascending order. */
  predicate Table(rows: seq<Row>)
  {
    ValidKeys(rows) && Ascending(rows)
  }

  lemma TableOrdinals(rows: seq<Row>)
    requires Table(rows)
    ensures forall i, j :: 0 <= i < j < |rows| ==> Ordinal(rows[i].date) < Ordinal(rows[j].date)
  {
    forall i, j | 0 <= i < j < |rows|
      ensures Ordinal(rows[i].date) < Ordinal(rows[j].date)
    {
      BeforeOrdinal(rows[i].date, rows[j].date);
    }
  }

  /** The offset of row j's date from the first date, in days. */
  function Offset(rows: seq<Row>, j: nat): (o: nat)
    requires Table(rows) && j < |rows|
    ensures o < Span(rows)
  {
    TableOrdinals(rows);
    Ordinal(rows[j].date) - Ordinal(rows[0].date)
  }

  /** The number of dates from the first row's to the last row's, both included. */
  function Span(rows: seq<Row>): nat
    requires Table(rows)
  {
    if |rows| == 0 then 0
    else
      TableOrdinals(rows);
      Ordinal(rows[|rows| - 1].date) - Ordinal(rows[0].date) + 1
  }

  /** The k-th date of the span (the first date + timedelta(days=k)). */
  function DayAt(rows: seq<Row>, k: nat): (d: Date)
    requires Table(rows) && k < Span(rows)
    ensures Valid(d) && Ordinal(d) == Ordinal(rows[0].date) + k
  {
    OrdinalRange(rows[|rows| - 1].date);
    AddDays(rows[0].date, k)
  }

  /** The date_list of __interpolate_missing_dates: every date of the span, in order. */
  function Days(rows: seq<Row>): (ds: seq<Date>)
    requires Table(rows)
    ensures |ds| == Span(rows)
  {
    DaysPrefix(rows, Span(rows))
  }

  /** The first n dates of the span. */
  function DaysPrefix(rows: seq<Row>, n: nat): (ds: seq<Date>)
    requires Table(rows) && n <= Span(rows)
    ensures |ds| == n
    decreases n
  {
    if n == 0 then [] else DaysPrefix(rows, n - 1) + [DayAt(rows, n - 1)]
  }

  lemma {:induction false} DaysPrefixAt(rows: seq<Row>, n: nat, k: nat)
    requires Table(rows) && k < n <= Span(rows)
    ensures DaysPrefix(rows, n)[k] == DayAt(rows, k)
    decreases n
  {
    var ds := DaysPrefix(rows, n - 1);
    assert DaysPrefix(rows, n) == ds + [DayAt(rows, n - 1)];
    if k < n - 1 {
      DaysPrefixAt(rows, n - 1, k);
    }
  }

  /** Date k of the list is the k-th day after the first recorded date. */
  lemma DaysAt(rows: seq<Row>, k: nat)
    requires Table(rows) && k < Span(rows)
    ensures Days(rows)[k] == DayAt(rows, k)
  {
    DaysPrefixAt(rows, Span(rows), k);
  }

  /** The y_list of __interpolate_missing_dates before interpolation: the recorded coordinate of each date of
      the span, None (NaN) for an inserted date. */
  function Grid(rows: seq<Row>): (g: seq<Option<real>>)
    requires Table(rows)
    ensures |g| == Span(rows)
  {
    LookupAll(rows, Days(rows))
  }

  /** The table's value for each of the dates ds, in order. */
  function LookupAll(rows: seq<Row>, ds: seq<Date>): (g: seq<Option<real>>)
    ensures |g| == |ds|
    decreases |ds|
  {
    if |ds| == 0 then [] else LookupAll(rows, ds[..|ds| - 1]) + [Lookup(rows, ds[|ds| - 1])]
  }

  lemma {:induction false} LookupAllAt(rows: seq<Row>, ds: seq<Date>, k: nat)
    requires k < |ds|
    ensures LookupAll(rows, ds)[k] == Lookup(rows, ds[k])
    decreases |ds|
  {
    var ds' := ds[..|ds| - 1];
    assert LookupAll(rows, ds) == LookupAll(rows, ds') + [Lookup(rows, ds[|ds| - 1])];
    if k < |ds| - 1 {
      LookupAllAt(rows, ds', k);
    }
  }

  lemma LookupAllAppend(rows: seq<Row>, ds: seq<Date>, d: Date)
    ensures LookupAll(rows, ds + [d]) == LookupAll(rows, ds) + [Lookup(rows, d)]
  {
    assert (ds + [d])[..|ds|] == ds;
  }

  /** Grid entry k is the table's value for day k of the span. */
  lemma GridAt(rows: seq<Row>, k: nat)
    requires Table(rows) && k < Span(rows)
    ensures Grid(rows)[k] == Lookup(rows, DayAt(rows, k))
  {
    LookupAllAt(rows, Days(rows), k);
    DaysAt(rows, k);
  }

  /** Row j's date is the date at its offset, and the table holds its coordinate there. */
  lemma RowLookup(rows: seq<Row>, j: nat)
    requires Table(rows) && j < |rows|
    ensures 0 <= Offset(rows, j) < Span(rows)
    ensures DayAt(rows, Offset(rows, j)) == rows[j].date
    ensures Lookup(rows, rows[j].date) == Some(rows[j].cy)
  {
    TableOrdinals(rows);
    OrdinalInjective(DayAt(rows, Offset(rows, j)), rows[j].date);
    assert UniqueKeys(rows) by {
      forall i, i' | 0 <= i < i' < |rows| ensures rows[i].date != rows[i'].date {
        assert Ordinal(rows[i].date) < Ordinal(rows[i'].date);
      }
    }
    LookupMember(rows, rows[j]);
  }

  /** The grid holds row j's coordinate at row j's offset. */
  lemma GridAtRow(rows: seq<Row>, j: nat)
    requires Table(rows) && j < |rows|
    ensures 0 <= Offset(rows, j) < Span(rows)
    ensures DayAt(rows, Offset(rows, j)) == rows[j].date
    ensures Grid(rows)[Offset(rows, j)] == Some(rows[j].cy)
  {
    RowLookup(rows, j);
    GridAt(rows, Offset(rows, j));
  }

  /** A date strictly between two consecutive rows is not in the table. */
  lemma GapLookup(rows: seq<Row>, j: nat, i: nat)
    requires Table(rows) && j + 1 < |rows| && 0 < i < Offset(rows, j + 1) - Offset(rows, j)
    ensures Offset(rows, j) + i < Span(rows)
    ensures Lookup(rows, DayAt(rows, Offset(rows, j) + i)).None?
  {
    TableOrdinals(rows);
    var k := Offset(rows, j) + i;
    var d := DayAt(rows, k);
    forall m | 0 <= m < |rows| ensures rows[m].date != d {
      if m <= j {
        assert Ordinal(rows[m].date) <= Ordinal(rows[j].date);
      } else {
        assert Ordinal(rows[j + 1].date) <= Ordinal(rows[m].date);
      }
    }
  }

  /** The grid is unknown at a date strictly between two consecutive rows. */
  lemma GridInGap(rows: seq<Row>, j: nat, i: nat)
    requires Table(rows) && j + 1 < |rows| && 0 < i < Offset(rows, j + 1) - Offset(rows, j)
    ensures Offset(rows, j) + i < Span(rows)
    ensures Grid(rows)[Offset(rows, j) + i].None?
  {
    var k := Offset(rows, j) + i;
    GapLookup(rows, j, i);
    GridAt(rows, k);
    assert Grid(rows)[k] == Lookup(rows, DayAt(rows, k));
  }

  /** The last known entry strictly before k, or -1. */
  function PrevKnown(ys: seq<Option<real>>, k: nat): (p: int)
    requires k <= |ys|
    ensures -1 <= p < k
    ensures p >= 0 ==> ys[p].Some?
    ensures forall i :: p < i < k ==> ys[i].None?
    decreases k
  {
    if k == 0 then -1 else if ys[k - 1].Some? then k - 1 else PrevKnown(ys, k - 1)
  }

  /** The first known entry strictly after k, or |ys|. */
  function NextKnown(ys: seq<Option<real>>, k: nat): (q: nat)
    requires k < |ys|
    ensures k < q <= |ys|
    ensures q < |ys| ==> ys[q].Some?
    ensures forall i :: k < i < q ==> ys[i].None?
    decreases |ys| - k
  {
    if k + 1 == |ys| then |ys| else if ys[k + 1].Some? then k + 1 else NextKnown(ys, k + 1)
  }

  /** Series.interpolate() at one position: a known value stays; a gap between two known values
      lies on the straight line between them; a gap after the last known value takes that
      value; a gap before the first known value stays unknown. */
  function FillAt(ys: seq<Option<real>>, k: nat): Option<real>
    requires k < |ys|
  {
    if ys[k].Some? then ys[k]
    else
      var p, q := PrevKnown(ys, k), NextKnown(ys, k);
      if p < 0 then None
      else if q == |ys| then ys[p]
      else Some(Line(ys[p].value, ys[q].value, k - p, q - p))
  }

  /** The point num/den of the way from y0 to y1. */
  function Line(y0: real, y1: real, num: int, den: int): real
    requires den > 0
  {
    y0 + (y1 - y0) * num as real / den as real
  }

  function LinearFill(ys: seq<Option<real>>): (r: seq<Option<real>>)
    ensures |r| == |ys|
    ensures forall k :: 0 <= k < |ys| && ys[k].Some? ==> r[k] == ys[k]
  {
    seq(|ys|, k requires 0 <= k < |ys| => FillAt(ys, k))
  }

  /** Once the first entry is known, nothing is left unknown. */
  lemma FillResolved(ys: seq<Option<real>>)
    requires |ys| > 0 && ys[0].Some?
    ensures forall k :: 0 <= k < |ys| ==> LinearFill(ys)[k].Some?
  {
    forall k | 0 <= k < |ys| ensures FillAt(ys, k).Some? {
      if ys[k].None? {
        assert PrevKnown(ys, k) >= 0;
      }
    }
  }

  /** The table __interpolate_missing_dates returns. */
  function Interpolated(rows: seq<Row>): (r: seq<Row>)
    requires Table(rows)
    ensures |r| == Span(rows)
  {
    if |rows| == 0 then []
    else
      var g := Grid(rows);
      GridAtRow(rows, 0);
      FillResolved(g);
      var f := LinearFill(g);
      var ds := Days(rows);
      seq(Span(rows), k requires 0 <= k < Span(rows) => Row(ds[k], f[k].value))
  }

  /** The first n entries of the expanded date and value lists are those of the span. */
  predicate Expanded(rows: seq<Row>, n: nat, dates: seq<Date>, ys: seq<Option<real>>)
    requires Table(rows)
  {
    n <= Span(rows) && dates == DaysPrefix(rows, n) && ys == LookupAll(rows, dates)
  }

  /** Appending the recorded row j extends the expansion by one entry. */
  lemma ExpandRow(rows: seq<Row>, j: nat, dates: seq<Date>, ys: seq<Option<real>>)
    requires Table(rows) && j < |rows| && Expanded(rows, Offset(rows, j), dates, ys)
    ensures Expanded(rows, Offset(rows, j) + 1, dates + [rows[j].date], ys + [Some(rows[j].cy)])
  {
    RowLookup(rows, j);
    var n := Offset(rows, j);
    assert DaysPrefix(rows, n + 1) == dates + [DayAt(rows, n)];
    LookupAllAppend(rows, dates, DayAt(rows, n));
  }

  /** Appending the date i days after row j, which is missing from the table, extends the
      expansion by one entry. */
  lemma ExpandGap(rows: seq<Row>, j: nat, i: nat, dates: seq<Date>, ys: seq<Option<real>>)
    requires Table(rows) && j + 1 < |rows| && 0 < i < Offset(rows, j + 1) - Offset(rows, j)
    requires Expanded(rows, Offset(rows, j) + i, dates, ys)
    ensures Ordinal(rows[j].date) + i <= MaxOrdinal
    ensures Expanded(rows, Offset(rows, j) + i + 1, dates + [AddDays(rows[j].date, i)], ys + [None])
  {
    var n := Offset(rows, j) + i;
    GapLookup(rows, j, i);
    OrdinalRange(rows[j + 1].date);
    var d := AddDays(rows[j].date, i);
    OrdinalInjective(d, DayAt(rows, n));
    assert DaysPrefix(rows, n + 1) == dates + [DayAt(rows, n)];
    LookupAllAppend(rows, dates, DayAt(rows, n));
  }

  /** The loop of __interpolate_missing_dates: the recorded dates, with every missing date
      between two consecutive ones inserted (y value None), in date order. */
  method ExpandGaps(rows: seq<Row>) returns (dates: seq<Date>, ys: seq<Option<real>>)
    requires Table(rows)
    ensures dates == Days(rows) && ys == Grid(rows)
  {
    if |rows| == 0 {
      return [], [];
    }
    ExpandFirst(rows);
    dates, ys := [rows[0].date], [Some(rows[0].cy)];
    var j := 1;
    while j < |rows|
      invariant 1 <= j <= |rows|
      invariant Expanded(rows, Offset(rows, j - 1) + 1, dates, ys)
    {
      dates, ys := InsertMissing(rows, j - 1, dates, ys);
      ExpandRow(rows, j, dates, ys);
      dates, ys := dates + [rows[j].date], ys + [Some(rows[j].cy)];
      j := j + 1;
    }
    ExpandedAll(rows, dates, ys);
  }

  lemma ExpandFirst(rows: seq<Row>)
    requires Table(rows) && |rows| > 0
    ensures Expanded(rows, 1, [rows[0].date], [Some(rows[0].cy)])
  {
    assert Expanded(rows, Offset(rows, 0), [], []);
    ExpandRow(rows, 0, [], []);
  }

  /** Once the last row is appended, the expansion is the whole span. */
  lemma ExpandedAll(rows: seq<Row>, dates: seq<Date>, ys: seq<Option<real>>)
    requires Table(rows) && |rows| > 0 && Expanded(rows, Offset(rows, |rows| - 1) + 1, dates, ys)
    ensures dates == Days(rows) && ys == Grid(rows)
  {
    assert Offset(rows, |rows| - 1) + 1 == Span(rows);
  }

  /** The inner loop: the dates strictly between rows j and j + 1, each with y value None. */
  method InsertMissing(rows: seq<Row>, j: nat, dates0: seq<Date>, ys0: seq<Option<real>>)
    returns (dates: seq<Date>, ys: seq<Option<real>>)
    requires Table(rows) && j + 1 < |rows|
    requires Expanded(rows, Offset(rows, j) + 1, dates0, ys0)
    ensures Expanded(rows, Offset(rows, j + 1), dates, ys)
  {
    var prev := rows[j].date;
    var delta := Offset(rows, j + 1) - Offset(rows, j);
    OffsetsApart(rows, j, j + 1);
    dates, ys := dates0, ys0;
    var i := 1;
    while i < delta
      invariant 1 <= i <= delta
      invariant Expanded(rows, Offset(rows, j) + i, dates, ys)
    {
      ExpandGap(rows, j, i, dates, ys);
      var missing := AddDays(prev, i);
      dates, ys := dates + [missing], ys + [None];
      i := i + 1;
    }
  }

  /** __interpolate_missing_dates. */
  method Interpolate(rows: seq<Row>) returns (r: seq<Row>)
    requires Table(rows)
    ensures r == Interpolated(rows)
  {
    var dates, ys := ExpandGaps(rows);
    if |rows| == 0 {
      return [];
    }
    GridAtRow(rows, 0);
    FillResolved(ys);
    var filled := LinearFill(ys);
    r := seq(|dates|, k requires 0 <= k < |dates| => Row(dates[k], filled[k].value));
  }

  /** The filled table has one row per day of the span, ordered day by day from the first
      recorded date, so it is again a table in date order and sorting it changes nothing. */
  lemma InterpolatedContiguous(rows: seq<Row>)
    requires Table(rows)
    ensures |Interpolated(rows)| == Span(rows)
    ensures forall k :: 0 <= k < |Interpolated(rows)| ==>
      Valid(Interpolated(rows)[k].date) && Ordinal(Interpolated(rows)[k].date) == Ordinal(rows[0].date) + k
    ensures Table(Interpolated(rows))
    ensures UniqueKeys(Interpolated(rows)) && SortRows(Interpolated(rows)) == Interpolated(rows)
  {
    var r := Interpolated(rows);
    forall k | 0 <= k < |r|
      ensures Valid(r[k].date) && Ordinal(r[k].date) == Ordinal(rows[0].date) + k
    {
      InterpolatedAt(rows, k);
    }
    forall i, j | 0 <= i < j < |r| ensures Before(r[i].date, r[j].date) {
      OrdinalOrder(r[i].date, r[j].date);
    }
    SortRowsSorted(r);
  }

  /** Every recorded date keeps its recorded row coordinate. */
  lemma InterpolatedKeepsRows(rows: seq<Row>, j: nat)
    requires Table(rows) && j < |rows|
    ensures Offset(rows, j) < |Interpolated(rows)|
    ensures Interpolated(rows)[Offset(rows, j)] == rows[j]
  {
    GridAtRow(rows, j);
    InterpolatedAt(rows, Offset(rows, j));
  }

  /** A date inserted between rows j and j + 1, i days after row j, lies on the straight line
      between their coordinates (its date is the i-th day after row j's, by
      InterpolatedContiguous). */
  lemma InterpolatedGap(rows: seq<Row>, j: nat, i: nat)
    requires Table(rows) && j + 1 < |rows| && 0 < i < Offset(rows, j + 1) - Offset(rows, j)
    ensures Offset(rows, j) + i < |Interpolated(rows)|
    ensures var delta := Offset(rows, j + 1) - Offset(rows, j);
      Interpolated(rows)[Offset(rows, j) + i].cy == Line(rows[j].cy, rows[j + 1].cy, i, delta)
  {
    GapFill(rows, j, i);
    InterpolatedAt(rows, Offset(rows, j) + i);
  }

  /** The grid entry i days after row j is filled on the line from row j to row j + 1. */
  lemma GapFill(rows: seq<Row>, j: nat, i: nat)
    requires Table(rows) && j + 1 < |rows| && 0 < i < Offset(rows, j + 1) - Offset(rows, j)
    ensures Offset(rows, j) + i < |Grid(rows)|
    ensures FillAt(Grid(rows), Offset(rows, j) + i) ==
      Some(Line(rows[j].cy, rows[j + 1].cy, i, Offset(rows, j + 1) - Offset(rows, j)))
  {
    GapFrame(rows, j);
    FillAtGap(Grid(rows), Offset(rows, j), Offset(rows, j + 1), i, rows[j].cy, rows[j + 1].cy);
  }

  /** Between consecutive rows j and j + 1 the grid is known at both ends and unknown
      inside. */
  lemma GapFrame(rows: seq<Row>, j: nat)
    requires Table(rows) && j + 1 < |rows|
    ensures Framed(Grid(rows), Offset(rows, j), Offset(rows, j + 1), rows[j].cy, rows[j + 1].cy)
  {
    GridAtRow(rows, j);
    GridAtRow(rows, j + 1);
    OffsetsApart(rows, j, j + 1);
    forall m | Offset(rows, j) < m < Offset(rows, j + 1) ensures Grid(rows)[m].None? {
      GridInGap(rows, j, m - Offset(rows, j));
    }
  }

  /** Entry k of the filled table is day k of the span with the filled grid value there. */
  lemma InterpolatedAt(rows: seq<Row>, k: nat)
    requires Table(rows) && k < Span(rows)
    ensures Interpolated(rows)[k].date == DayAt(rows, k)
    ensures FillAt(Grid(rows), k) == Some(Interpolated(rows)[k].cy)
  {
    DaysAt(rows, k);
    GridAtRow(rows, 0);
    FillResolved(Grid(rows));
  }

  /** Entries a and b of g are known, with the values y0 and y1, and nothing between them is. */
  predicate Framed(g: seq<Option<real>>, a: nat, b: nat, y0: real, y1: real)
  {
    a < b < |g| && g[a] == Some(y0) && g[b] == Some(y1) && forall m :: a < m < b ==> g[m].None?
  }

  /** Inside a run of unknown entries bounded by known ones, the neighbours PrevKnown and
      NextKnown find are the bounds. */
  lemma GapNeighbours(g: seq<Option<real>>, a: nat, b: nat, k: nat)
    requires a < k < b < |g| && g[a].Some? && g[b].Some?
    requires forall m :: a < m < b ==> g[m].None?
    ensures PrevKnown(g, k) == a && NextKnown(g, k) == b
  {
    var p, q := PrevKnown(g, k), NextKnown(g, k);
    assert a <= p && q <= b;
  }

  /** An unknown entry between the known entries a and b is filled on the line through them. */
  lemma FillAtGap(g: seq<Option<real>>, a: nat, b: nat, i: nat, y0: real, y1: real)
    requires Framed(g, a, b, y0, y1) && 0 < i && a + i < b
    ensures FillAt(g, a + i) == Some(Line(y0, y1, i, b - a))
  {
    GapNeighbours(g, a, b, a + i);
  }

  /** Where no date is missing, gap filling returns the table unchanged. */
  lemma InterpolatedNoGaps(rows: seq<Row>)
    requires Table(rows) && Span(rows) == |rows|
    ensures Interpolated(rows) == rows
  {
    if |rows| > 0 {
      TableOrdinals(rows);
      OffsetsTight(rows, |rows| - 1);
      forall j | 0 <= j < |rows| ensures Interpolated(rows)[j] == rows[j] {
        InterpolatedKeepsRows(rows, j);
      }
    }
  }

  /** Strictly increasing offsets that start at 0 and end at n - 1 are 0, 1, ..., n - 1. */
  lemma {:induction false} OffsetsTight(rows: seq<Row>, j: nat)
    requires Table(rows) && j < |rows| && Span(rows) == |rows|
    ensures forall k :: 0 <= k <= j ==> Offset(rows, k) == k
    decreases j
  {
    TableOrdinals(rows);
    OffsetsGrow(rows, j);
    OffsetsGrow(rows, |rows| - 1);
    assert Offset(rows, |rows| - 1) - Offset(rows, j) >= |rows| - 1 - j by {
      OffsetsApart(rows, j, |rows| - 1);
    }
    if j > 0 {
      OffsetsTight(rows, j - 1);
    }
  }

  /** Offsets of later rows are at least as far apart as their positions. */
  lemma {:induction false} OffsetsApart(rows: seq<Row>, i: nat, j: nat)
    requires Table(rows) && i <= j < |rows|
    ensures Offset(rows, j) - Offset(rows, i) >= j - i
    decreases j - i
  {
    if i < j {
      TableOrdinals(rows);
      OffsetsApart(rows, i, j - 1);
      assert Ordinal(rows[j - 1].date) < Ordinal(rows[j].date);
    }
  }

  lemma OffsetsGrow(rows: seq<Row>, j: nat)
    requires Table(rows) && j < |rows|
    ensures Offset(rows, j) >= j
  {
    OffsetsApart(rows, 0, j);
  }

  /** An empty table stays empty. */
  lemma InterpolatedEmpty()
    ensures Interpolated([]) == []
  {
  }
}
