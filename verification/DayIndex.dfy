/**
 The per-day count index over the projection: the three triggers that keep it, and the
 sums over whole days that the seek queries read from it.
 */
module DayIndex {
  import opened Wrappers
  import opened IntegerSets
  import opened GalleryRows

  /** Nanoseconds in a UTC day; the day of an instant is the first ten characters of its text. */
  const DAY: int := 86_400_000_000_000

  function Day(time: int): int { time / DAY }

  function OnDay(rows: set<Row>, day: int): set<Row> {
    set r | r in rows && Day(r.capturedAt) == day
  }

  /** `SELECT day, COUNT(*) ... GROUP BY day`. */
  function Histogram(rows: set<Row>): map<int, nat> {
    map day | day in (set r | r in rows :: Day(r.capturedAt)) :: |OnDay(rows, day)|
  }

  /** The insert trigger: insert a count of one, or add one on conflict. */
  function DayInserted(days: map<int, nat>, day: int): map<int, nat> {
    if day in days then days[day := days[day] + 1] else days[day := 1]
  }

  /** The delete trigger: first drop a count of one, then decrement a count above one. */
  function DayDeleted(days: map<int, nat>, day: int): map<int, nat> {
    var dropped := if day in days && days[day] == 1 then days - {day} else days;
    if day in dropped && dropped[day] > 1 then dropped[day := dropped[day] - 1] else dropped
  }

  /** The update trigger, which fires only when the day changes. */
  function DayMoved(days: map<int, nat>, from: int, to: int): map<int, nat> {
    if from == to then days else DayInserted(DayDeleted(days, from), to)
  }

  lemma HistogramAt(rows: set<Row>, day: int)
    ensures day in Histogram(rows) <==> OnDay(rows, day) != {}
    ensures day in Histogram(rows) ==> Histogram(rows)[day] == |OnDay(rows, day)| > 0
  {
    if day in Histogram(rows) {
      var r :| r in rows && Day(r.capturedAt) == day;
      assert r in OnDay(rows, day);
    }
    if OnDay(rows, day) != {} {
      var r :| r in OnDay(rows, day);
    }
  }

  /** A map that agrees with the row counts day by day is the histogram. */
  lemma HistogramUnique(days: map<int, nat>, rows: set<Row>)
    requires forall d :: d in days <==> OnDay(rows, d) != {}
    requires forall d | d in days :: days[d] == |OnDay(rows, d)|
    ensures days == Histogram(rows)
  {
    forall d ensures d in days <==> d in Histogram(rows) { HistogramAt(rows, d); }
    forall d | d in days ensures days[d] == Histogram(rows)[d] { HistogramAt(rows, d); }
  }

  lemma InsertKeepsHistogram(rows: set<Row>, r: Row)
    requires r !in rows
    ensures DayInserted(Histogram(rows), Day(r.capturedAt)) == Histogram(rows + {r})
  {
    var day := Day(r.capturedAt);
    var days := DayInserted(Histogram(rows), day);
    forall d
      ensures d in days <==> OnDay(rows + {r}, d) != {}
      ensures d in days ==> days[d] == |OnDay(rows + {r}, d)|
    {
      InsertedAt(rows, r, d);
    }
    HistogramUnique(days, rows + {r});
  }

  lemma InsertedAt(rows: set<Row>, r: Row, d: int)
    requires r !in rows
    ensures var days := DayInserted(Histogram(rows), Day(r.capturedAt));
            && (d in days <==> OnDay(rows + {r}, d) != {})
            && (d in days ==> days[d] == |OnDay(rows + {r}, d)|)
  {
    HistogramAt(rows, d);
    if d == Day(r.capturedAt) {
      assert OnDay(rows + {r}, d) == OnDay(rows, d) + {r};
      assert r !in OnDay(rows, d);
    } else {
      assert OnDay(rows + {r}, d) == OnDay(rows, d);
    }
  }

  lemma DeleteKeepsHistogram(rows: set<Row>, r: Row)
    requires r in rows
    ensures DayDeleted(Histogram(rows), Day(r.capturedAt)) == Histogram(rows - {r})
  {
    var day := Day(r.capturedAt);
    var days := DayDeleted(Histogram(rows), day);
    assert r in OnDay(rows, day);
    forall d
      ensures d in days <==> OnDay(rows - {r}, d) != {}
      ensures d in days ==> days[d] == |OnDay(rows - {r}, d)|
    {
      HistogramAt(rows, d);
      assert OnDay(rows - {r}, d) == if d == day then OnDay(rows, d) - {r} else OnDay(rows, d);
      assert |OnDay(rows, day) - {r}| == |OnDay(rows, day)| - 1;
      assert |OnDay(rows - {r}, d)| == 0 <==> OnDay(rows - {r}, d) == {};
    }
    HistogramUnique(days, rows - {r});
  }

  /** Updating a row's capture time in place, across days or within one. */
  lemma UpdateKeepsHistogram(rows: set<Row>, old_: Row, new_: Row)
    requires old_ in rows && new_ !in rows - {old_}
    ensures DayMoved(Histogram(rows), Day(old_.capturedAt), Day(new_.capturedAt)) == Histogram(rows - {old_} + {new_})
  {
    DeleteKeepsHistogram(rows, old_);
    InsertKeepsHistogram(rows - {old_}, new_);
    if Day(old_.capturedAt) == Day(new_.capturedAt) {
      HistogramAt(rows, Day(old_.capturedAt));
      assert old_ in OnDay(rows, Day(old_.capturedAt));
      var undone := DayInserted(DayDeleted(Histogram(rows), Day(old_.capturedAt)), Day(old_.capturedAt));
      assert undone == Histogram(rows);
    }
  }

  // ------------------------------------------------------------ sums over days

  /** `COALESCE(SUM(item_count), 0)`. */
  function SumCounts(days: map<int, nat>): nat
    decreases days.Keys
  {
    if days.Keys == {} then 0
    else
      var m := MaxOf(days.Keys);
      days[m] + SumCounts(days - {m})
  }

  /** The days strictly newer than `day`. */
  function Newer(days: map<int, nat>, day: int): map<int, nat> {
    map d | d in days && d > day :: days[d]
  }

  ghost function NewerRows(rows: set<Row>, day: int): set<Row> {
    set r | r in rows && Day(r.capturedAt) > day
  }

  lemma EmptyHistogram(rows: set<Row>)
    ensures rows != {} ==> Histogram(rows).Keys != {}
  {
    if rows != {} {
      var r :| r in rows;
      assert r in OnDay(rows, Day(r.capturedAt));
      HistogramAt(rows, Day(r.capturedAt));
    }
  }

  lemma {:induction false} SumOfHistogram(rows: set<Row>)
    ensures SumCounts(Histogram(rows)) == |rows|
    decreases |rows|
  {
    var days := Histogram(rows);
    if days.Keys == {} {
      EmptyHistogram(rows);
    } else {
      var m := MaxOf(days.Keys);
      HistogramAt(rows, m);
      var rest := rows - OnDay(rows, m);
      forall d
        ensures d in days - {m} <==> OnDay(rest, d) != {}
        ensures d in days - {m} ==> (days - {m})[d] == |OnDay(rest, d)|
      {
        HistogramAt(rows, d);
        assert OnDay(rest, d) == if d == m then {} else OnDay(rows, d);
      }
      HistogramUnique(days - {m}, rest);
      assert |rows| == |OnDay(rows, m)| + |rest| by { assert rows == OnDay(rows, m) + rest; }
      SumOfHistogram(rest);
    }
  }

  /** Summing the counts of the newer days counts the rows of the newer days. */
  lemma SumOfNewer(rows: set<Row>, day: int)
    ensures SumCounts(Newer(Histogram(rows), day)) == |NewerRows(rows, day)|
  {
    var newer := Newer(Histogram(rows), day);
    forall d
      ensures d in newer <==> OnDay(NewerRows(rows, day), d) != {}
      ensures d in newer ==> newer[d] == |OnDay(NewerRows(rows, day), d)|
    {
      HistogramAt(rows, d);
      assert OnDay(NewerRows(rows, day), d) == if d > day then OnDay(rows, d) else {};
    }
    HistogramUnique(newer, NewerRows(rows, day));
    SumOfHistogram(NewerRows(rows, day));
  }

  /** A day with its start position. */
  datatype DaySpan = DaySpan(day: int, start: nat)

  /**
   `galleryProjectionDayAtOffsetSQL`: walk the days from the newest, each starting where
   the newer ones end, to the day whose span holds the offset.
   */
  function DayAtOffset(days: map<int, nat>, offset: nat, start: nat): (span: Option<DaySpan>)
    decreases days.Keys
  {
    if days.Keys == {} then None
    else
      var m := MaxOf(days.Keys);
      if start <= offset < start + days[m] then Some(DaySpan(m, start))
      else DayAtOffset(days - {m}, offset, start + days[m])
  }

  /** The walk finds a day exactly for the offsets inside the total, and its start is the newer sum. */
  lemma {:induction false} DayAtOffsetFinds(days: map<int, nat>, offset: nat, start: nat)
    requires start <= offset
    ensures DayAtOffset(days, offset, start).Some? <==> offset < start + SumCounts(days)
    ensures var span := DayAtOffset(days, offset, start);
            span.Some? ==>
              && span.value.day in days
              && span.value.start == start + SumCounts(Newer(days, span.value.day))
              && span.value.start <= offset < span.value.start + days[span.value.day]
    decreases days.Keys
  {
    if days.Keys != {} {
      var m := MaxOf(days.Keys);
      if offset < start + days[m] {
        assert Newer(days, m) == map[];
      } else {
        DayAtOffsetFinds(days - {m}, offset, start + days[m]);
        var span := DayAtOffset(days - {m}, offset, start + days[m]);
        if span.Some? {
          NewerWithoutMax(days, span.value.day);
        }
      }
    }
  }

  /** In terms of rows: the span found for an offset lies after the newer rows and inside the day's rows. */
  lemma SpanOfRows(rows: set<Row>, offset: nat)
    ensures var span := DayAtOffset(Histogram(rows), offset, 0);
            && (span.Some? <==> offset < |rows|)
            && (span.Some? ==>
                  var newer := |NewerRows(rows, span.value.day)|;
                  span.value.start == newer <= offset < newer + |OnDay(rows, span.value.day)|)
  {
    var days := Histogram(rows);
    DayAtOffsetFinds(days, offset, 0);
    SumOfHistogram(rows);
    var span := DayAtOffset(days, offset, 0);
    if span.Some? {
      SumOfNewer(rows, span.value.day);
      HistogramAt(rows, span.value.day);
    }
  }

  lemma NewerWithoutMax(days: map<int, nat>, day: int)
    requires days.Keys != {} && day < MaxOf(days.Keys)
    ensures var m := MaxOf(days.Keys);
            SumCounts(Newer(days, day)) == days[m] + SumCounts(Newer(days - {m}, day))
  {
    var m := MaxOf(days.Keys);
    var newer := Newer(days, day);
    assert m in newer;
    assert MaxOf(newer.Keys) == m;
    assert newer - {m} == Newer(days - {m}, day);
  }
}
