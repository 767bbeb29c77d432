/** Nichinoken.get_schedule_list: the whole reading of one layout response, from tokens to the
    school year's events. */
module Pipeline {
  import opened Outcomes
  import opened Text
  import opened Calendar
  import opened Words
  import opened FileInfo
  import opened DateColumn
  import opened DateRows
  import opened Interpolation
  import opened GradeSchedule

  /** The year of the dates: the file name's, or the current year (a parameter here). */
  function TargetYear(filename: string, todayYear: int): (r: int)
    ensures MatchStart(filename).None? ==> r == todayYear
    ensures MatchStart(filename).Some? ==> r == InfoFromFilename(filename).year && 2000 <= r <= 2099
  {
    var info := InfoFromFilename(filename);
    if info.year == -1 then todayYear else info.year
  }

  /** The month text put before a bare day number: str() of the file name's month, or else the
      digits of the first month marker; None when neither is known. */
  function TargetMonth(words: seq<Word>, filename: string): (r: Option<string>)
    ensures r.None? <==> InfoFromFilename(filename).month == -1 && ExtractMonth(words).None?
    ensures r.Some? ==> 0 < |r.value| && AllDigits(r.value)
    ensures MatchStart(filename).None? ==> r == ExtractMonth(words)
    ensures MatchStart(filename).Some? ==> r.Some? && DigitsValue(r.value) == InfoFromFilename(filename).month
  {
    var info := InfoFromFilename(filename);
    if info.month != -1 then Some(NatToString(info.month)) else ExtractMonth(words)
  }

  /** A name ending in YYMM, one character and "json" fixes the year 20YY and the month MM,
      whatever the words and the current year. */
  lemma TargetFromFileName(words: seq<Word>, prefix: string, yy: nat, mm: nat, c: char, newline: bool, todayYear: int)
    requires yy < 100 && mm < 100 && c != '\n'
    ensures TargetYear(ScheduleFileName(prefix, yy, mm, c, newline), todayYear) == 2000 + yy
    ensures TargetMonth(words, ScheduleFileName(prefix, yy, mm, c, newline)) == Some(NatToString(mm))
    ensures DigitsValue(TargetMonth(words, ScheduleFileName(prefix, yy, mm, c, newline)).value) == mm
  {
    FilenameRoundTrip(prefix, yy, mm, c, newline);
  }

  /** Ascending order of a table of valid dates of one year keeps them valid and in that year. */
  lemma SortedTable(rows: seq<Row>, year: int)
    requires UniqueKeys(rows) && ValidKeys(rows)
    requires forall i :: 0 <= i < |rows| ==> rows[i].date.year == year
    ensures Table(SortRows(rows))
    ensures forall i :: 0 <= i < |SortRows(rows)| ==> SortRows(rows)[i].date.year == year
  {
    var s := SortRows(rows);
    forall i | 0 <= i < |s| ensures Valid(s[i].date) && s[i].date.year == year {
      assert s[i] in multiset(rows);
    }
  }

  /** The date table after sorting and gap filling. */
  function FilledTable(words: seq<Word>, year: int, monthText: string): (r: seq<Row>)
    ensures Table(r)
    ensures forall i :: 0 <= i < |r| ==> r[i].date.year == year
    ensures |r| == 0 <==> |DateTable(words, year, monthText, Median(CandidateXs(words)))| == 0
  {
    var table := DateTable(words, year, monthText, Median(CandidateXs(words)));
    SortedLength(table);
    var sorted := SortRows(DateTable(words, year, monthText, Median(CandidateXs(words))));
    SortedTable(DateTable(words, year, monthText, Median(CandidateXs(words))), year);
    FilledYear(sorted, year);
    FilledEmpty(sorted);
    Interpolated(sorted)
  }

  lemma SortedLength(rows: seq<Row>)
    requires UniqueKeys(rows)
    ensures |SortRows(rows)| == |rows|
  {
    assert |multiset(SortRows(rows))| == |multiset(rows)|;
  }

  /** Gap filling yields an empty table only from an empty one. */
  lemma FilledEmpty(rows: seq<Row>)
    requires Table(rows)
    ensures |Interpolated(rows)| == 0 <==> |rows| == 0
  {
    if |rows| > 0 {
      TableOrdinals(rows);
      assert Span(rows) >= 1;
    }
  }

  /** Gap filling stays between the first and the last recorded date, hence in their year. */
  lemma FilledYear(rows: seq<Row>, year: int)
    requires Table(rows) && forall i :: 0 <= i < |rows| ==> rows[i].date.year == year
    ensures Table(Interpolated(rows))
    ensures forall i :: 0 <= i < |Interpolated(rows)| ==> Interpolated(rows)[i].date.year == year
  {
    InterpolatedContiguous(rows);
    var r := Interpolated(rows);
    if |rows| > 0 {
      var first, last := rows[0].date, rows[|rows| - 1].date;
      forall k | 0 <= k < |r| ensures r[k].date.year == year {
        assert Ordinal(r[k].date) <= Ordinal(first) + Span(rows) - 1;
        SameYearBetween(first, r[k].date, last);
      }
    }
  }

  /** A date between two dates of one year lies in that year. */
  lemma SameYearBetween(a: Date, x: Date, b: Date)
    requires Valid(a) && Valid(x) && Valid(b) && a.year == b.year
    requires Ordinal(a) <= Ordinal(x) <= Ordinal(b)
    ensures x.year == a.year
  {
    OrdinalOrder(x, a);
    OrdinalOrder(b, x);
  }

  /** What get_schedule_list returns for a response, a file name, the current year and the
      school year. */
  function ScheduleList(doc: Document, filename: string, todayYear: int, schoolYear: int): Result<seq<Event>>
    requires 1 <= schoolYear <= 6
  {
    if !WellFormed(doc) then Err(MalformedInput)
    else
      var words := DocumentWords(doc);
      match TargetMonth(words, filename)
      case None => Err(UnknownMonth)
      case Some(monthText) =>
        var gradeX := GradeColumn(words, schoolYear);
        if gradeX < 0.0 then Err(GradeColumnNotFound)
        else Schedule(words, FilledTable(words, TargetYear(filename, todayYear), monthText), gradeX, schoolYear)
  }

  /** get_schedule_list. */
  method GetScheduleList(doc: Document, filename: string, todayYear: int, schoolYear: int)
    returns (r: Result<seq<Event>>)
    requires 1 <= schoolYear <= 6
    ensures r == ScheduleList(doc, filename, todayYear, schoolYear)
  {
    var read := ReadResponse(doc);
    if read.Err? {
      return Err(read.error);
    }
    var words := read.value;
    assert words == DocumentWords(doc);
    var info := InfoFromFilename(filename);
    var year := info.year;
    if year == -1 {
      year := todayYear;
    }
    var monthText: string;
    if info.month == -1 {
      var m := ReadMonth(words);
      if m.None? {
        return Err(UnknownMonth);
      }
      monthText := m.value;
    } else {
      monthText := NatToString(info.month);
    }
    var col := DateColumnX(words);
    var rows := ExtractDateRows(words, year, monthText, col);
    SortedTable(rows, year);
    rows := SortRows(rows);
    rows := Interpolate(rows);
    InterpolatedContiguous(SortRows(DateTable(words, year, monthText, col)));
    rows := SortRows(rows);
    var gradeX := GradeColumnX(words, schoolYear);
    if gradeX < 0.0 {
      return Err(GradeColumnNotFound);
    }
    r := ExtractSchedule(words, rows, gradeX, schoolYear, year);
  }

  /** The errors of get_schedule_list, each with exactly the circumstances that raise it: a
      malformed response, a month found neither in the file name nor in the text, a missing
      school-year heading, and an event token when no date row at all was read. */
  lemma ScheduleListErrors(doc: Document, filename: string, todayYear: int, schoolYear: int)
    requires 1 <= schoolYear <= 6
    ensures var r := ScheduleList(doc, filename, todayYear, schoolYear);
      r.Err? ==> r.error in {MalformedInput, UnknownMonth, GradeColumnNotFound, EmptyArgmin}
    ensures ScheduleList(doc, filename, todayYear, schoolYear) == Err(MalformedInput) <==> !WellFormed(doc)
    ensures ScheduleList(doc, filename, todayYear, schoolYear) == Err(UnknownMonth) <==>
      WellFormed(doc) && MatchStart(filename).None? && ExtractMonth(DocumentWords(doc)).None?
    ensures ScheduleList(doc, filename, todayYear, schoolYear) == Err(GradeColumnNotFound) <==>
      WellFormed(doc) && TargetMonth(DocumentWords(doc), filename).Some? &&
      GradeColumn(DocumentWords(doc), schoolYear) < 0.0
    ensures ScheduleList(doc, filename, todayYear, schoolYear) == Err(EmptyArgmin) <==>
      WellFormed(doc) && TargetMonth(DocumentWords(doc), filename).Some? &&
      GradeColumn(DocumentWords(doc), schoolYear) >= 0.0 &&
      |DateTable(DocumentWords(doc), TargetYear(filename, todayYear), TargetMonth(DocumentWords(doc), filename).value,
                 Median(CandidateXs(DocumentWords(doc))))| == 0 &&
      exists i :: 0 <= i < |DocumentWords(doc)| && IsEvent(DocumentWords(doc)[i], GradeColumn(DocumentWords(doc), schoolYear), schoolYear)
  {
    if WellFormed(doc) {
      var words := DocumentWords(doc);
      var month := TargetMonth(words, filename);
      if month.Some? {
        var gradeX := GradeColumn(words, schoolYear);
        ScheduleErrors(words, FilledTable(words, TargetYear(filename, todayYear), month.value), gradeX, schoolYear);
      }
    }
  }

  /** Every event get_schedule_list returns is dated by a day of the filled table, in the
      target year, and named on one line. */
  lemma ScheduleListEvents(doc: Document, filename: string, todayYear: int, schoolYear: int)
    requires 1 <= schoolYear <= 6 && ScheduleList(doc, filename, todayYear, schoolYear).Ok?
    ensures var es := ScheduleList(doc, filename, todayYear, schoolYear).value;
      forall k :: 0 <= k < |es| ==>
        Valid(es[k].date) && es[k].date.year == TargetYear(filename, todayYear) &&
        forall c :: c in es[k].name ==> c != '\n'
  {
    var words := DocumentWords(doc);
    var month := TargetMonth(words, filename).value;
    var year := TargetYear(filename, todayYear);
    var rows := FilledTable(words, year, month);
    var gradeX := GradeColumn(words, schoolYear);
    var es := ScheduleList(doc, filename, todayYear, schoolYear).value;
    assert Schedule(words, rows, gradeX, schoolYear) == Ok(es);
    ScheduleEvents(words, rows, gradeX, schoolYear);
    forall k | 0 <= k < |es|
      ensures Valid(es[k].date) && es[k].date.year == year && forall c :: c in es[k].name ==> c != '\n'
    {
      var w := Kept(words, gradeX, schoolYear)[k];
      assert EventFor(rows, w, es[k]);
      var p :| 0 <= p < |rows| && es[k].date == rows[p].date;
    }
  }
}
