/** The row position of each calendar date (Nichinoken.__extract_dates_row_Ycoords) and the
    ordering of that table by date (dict(sorted(...)) in get_schedule_list). */
module DateRows {
  import opened Outcomes
  import opened Text
  import opened Calendar
  import opened Words
  import opened DateColumn

  /** One entry of the date table: a date and the y coordinate of its row. */
  datatype Row = Row(date: Date, cy: real)

  /** The token lies in the date column and is short enough to be a date. A missing column
      (NaN in __calc_date_column_Xcoord) admits nothing, since every comparison with NaN is false. */
  predicate Admitted(w: Word, col: Option<real>)
  {
    col.Some? && Abs(w.cx - col.value) <= WordDateDistance && w.height < WordMaxHeight
  }

  /** The OCR repair in __extract_dates_row_Ycoords: "||" read as "11", then everything from the first space on
      dropped. */
  function Normalize(text: string): (t: string)
    ensures forall i :: 0 <= i < |t| ==> t[i] != ' '
    ensures |t| <= |text| && forall i :: 0 <= i < |t| ==> t[i] == PipeRepaired(text, i)
    ensures |t| == |text| || text[|t|] == ' '
  {
    var r := ReplaceAll(text, "||", "11");
    ReplacePipes(text);
    FirstField(r)
  }

  /** A bare day number is prefixed with the month text; any other text is kept as it is. */
  function DateText(monthText: string, t: string): string
  {
    if IsDayNumber(t) then monthText + "/" + t else t
  }

  /** s without one trailing newline. */
  function DropNewline(s: string): (u: string)
    ensures u == s || (s == u + "\n")
  {
    if |s| > 0 && s[|s| - 1] == '\n' then s[..|s| - 1] else s
  }

  /** re.match(r'^\d{1,2}/\d{1,2}$', s) followed by map(int, s.split("/")): the month and the
      day, or None when s does not have that shape. */
  function MonthDay(s: string): (r: Option<(nat, nat)>)
    ensures r.Some? ==> r.value.0 < 100 && r.value.1 < 100
  {
    var u := DropNewline(s);
    var k := if |u| >= 2 && u[1] == '/' then 1 else 2;
    if k < |u| && u[k] == '/' && OneOrTwoDigits(u[..k]) && OneOrTwoDigits(u[k + 1..]) then
      DigitsBound(u[..k]);
      DigitsBound(u[k + 1..]);
      Some((DigitsValue(u[..k]), DigitsValue(u[k + 1..])))
    else None
  }

  lemma DigitsBound(s: string)
    requires OneOrTwoDigits(s)
    ensures DigitsValue(s) < 100
  {
    if |s| == 2 {
      TwoDigitsValue(s);
    } else {
      assert s[..0] == [];
    }
  }

  /** "m/d", with one or two digits on each side and optionally a final newline, reads as
      (int(m), int(d)). */
  lemma MonthDayOfText(a: string, b: string, newline: bool)
    requires OneOrTwoDigits(a) && OneOrTwoDigits(b)
    ensures MonthDay(a + "/" + b + (if newline then "\n" else "")) == Some((DigitsValue(a), DigitsValue(b)))
  {
    var u := a + "/" + b;
    var s := u + (if newline then "\n" else "");
    assert DropNewline(s) == u by {
      if newline {
        assert s[..|s| - 1] == u;
      } else {
        assert u[|u| - 1] == b[|b| - 1];
      }
    }
    assert u[|a|] == '/' && u[..|a|] == a && u[|a| + 1..] == b;
    if |a| == 2 {
      assert u[1] != '/';
    }
  }

  /** Conversely, whatever MonthDay accepts has that shape. */
  lemma MonthDayShape(s: string) returns (a: string, b: string, newline: bool)
    requires MonthDay(s).Some?
    ensures OneOrTwoDigits(a) && OneOrTwoDigits(b)
    ensures s == a + "/" + b + (if newline then "\n" else "")
    ensures MonthDay(s).value == (DigitsValue(a), DigitsValue(b))
  {
    var u := DropNewline(s);
    var k := if |u| >= 2 && u[1] == '/' then 1 else 2;
    a, b, newline := u[..k], u[k + 1..], u != s;
    assert u == a + "/" + b;
  }

  /** The date a token yields in a given year and month, if any: datetime.date raises for an
      impossible date, and __extract_dates_row_Ycoords then skips the token. */
  function DateKey(year: int, monthText: string, text: string): (r: Option<Date>)
    ensures r.Some? ==> Valid(r.value) && r.value.year == year
  {
    match MonthDay(DateText(monthText, Normalize(text)))
    case None => None
    case Some((m, d)) => if Valid(Date(year, m, d)) then Some(Date(year, m, d)) else None
  }

  /** A bare day number d in the date column stands for day d of the target month. */
  lemma BareDayKey(year: int, monthText: string, text: string)
    requires OneOrTwoDigits(monthText) && IsDayNumber(Normalize(text))
    ensures var day := DigitsValue(DropNewline(Normalize(text)));
      DateKey(year, monthText, text) ==
        if Valid(Date(year, DigitsValue(monthText), day)) then Some(Date(year, DigitsValue(monthText), day)) else None
  {
    var t := Normalize(text);
    var b := DropNewline(t);
    assert OneOrTwoDigits(b) by {
      if !OneOrTwoDigits(t) {
        assert b == t[..|t| - 1];
      } else {
        assert t[|t| - 1] != '\n';
      }
    }
    var s := monthText + "/" + t;
    assert DateText(monthText, t) == s;
    assert s == monthText + "/" + b + (if t != b then "\n" else "");
    MonthDayOfText(monthText, b, t != b);
    assert MonthDay(s) == Some((DigitsValue(monthText), DigitsValue(b)));
  }

  /** A month text of three or more digits makes every bare day number unusable. */
  lemma LongMonthSkips(year: int, monthText: string, text: string)
    requires |monthText| >= 3 && AllDigits(monthText) && IsDayNumber(Normalize(text))
    ensures DateKey(year, monthText, text).None?
  {
    var u := DropNewline(DateText(monthText, Normalize(text)));
    assert u[..3] == monthText[..3];
    assert IsDigit(u[1]) && IsDigit(u[2]);
  }

  /** Text of the form "m/d", optionally before a final newline, gives day d of month m,
      whatever the target month is. */
  lemma SlashDateKey(year: int, monthText: string, text: string, a: string, b: string, newline: bool)
    requires OneOrTwoDigits(a) && OneOrTwoDigits(b)
    requires Normalize(text) == a + "/" + b + (if newline then "\n" else "")
    ensures DateKey(year, monthText, text) ==
      if Valid(Date(year, DigitsValue(a), DigitsValue(b))) then Some(Date(year, DigitsValue(a), DigitsValue(b))) else None
  {
    var t := Normalize(text);
    assert !IsDayNumber(t) by {
      assert t[|a|] == '/';
      assert |a| < |t| - 1;
      assert t[..|t| - 1][|a|] == '/';
    }
    MonthDayOfText(a, b, newline);
  }

  /** The date a token contributes to the table, if it is admitted at all. */
  function KeyOf(w: Word, year: int, monthText: string, col: Option<real>): Option<Date>
  {
    if Admitted(w, col) then DateKey(year, monthText, w.text) else None
  }

  predicate HasKey(rows: seq<Row>, d: Date)
  {
    exists i :: 0 <= i < |rows| && rows[i].date == d
  }

  predicate UniqueKeys(rows: seq<Row>)
  {
    forall i, j :: 0 <= i < j < |rows| ==> rows[i].date != rows[j].date
  }

  predicate ValidKeys(rows: seq<Row>)
  {
    forall i :: 0 <= i < |rows| ==> Valid(rows[i].date)
  }

  /** date_y_dict[d], for a table of unique keys. */
  function Lookup(rows: seq<Row>, d: Date): (r: Option<real>)
    ensures r.None? <==> !HasKey(rows, d)
    decreases |rows|
  {
    if |rows| == 0 then None
    else if rows[0].date == d then Some(rows[0].cy)
    else
      var r := Lookup(rows[1..], d);
      assert forall i :: 1 <= i < |rows| ==> rows[i] == rows[1..][i - 1];
      r
  }

  /** A value found is the value of a row with that date. */
  lemma {:induction false} LookupFound(rows: seq<Row>, d: Date) returns (i: nat)
    requires Lookup(rows, d).Some?
    ensures i < |rows| && rows[i] == Row(d, Lookup(rows, d).value)
    decreases |rows|
  {
    if rows[0].date == d {
      i := 0;
    } else {
      var k := LookupFound(rows[1..], d);
      i := k + 1;
    }
  }

  /** What one token offers the table: the date it yields (if admitted and well-formed) and its
      row coordinate. */
  datatype Offer = Offer(key: Option<Date>, cy: real)

  function Offers(ws: seq<Word>, year: int, monthText: string, col: Option<real>): (r: seq<Offer>)
    ensures |r| == |ws|
    ensures forall i :: 0 <= i < |ws| ==> r[i] == Offer(KeyOf(ws[i], year, monthText, col), ws[i].cy)
  {
    seq(|ws|, i requires 0 <= i < |ws| => Offer(KeyOf(ws[i], year, monthText, col), ws[i].cy))
  }

  /** The table built from a run of offers, keys in insertion order: an offer for a date already
      present is ignored, so the first one wins. */
  function FirstSeen(os: seq<Offer>): (r: seq<Row>)
    ensures UniqueKeys(r)
    ensures forall j :: 0 <= j < |r| ==> exists i :: 0 <= i < |os| && os[i] == Offer(Some(r[j].date), r[j].cy)
    decreases |os|
  {
    if |os| == 0 then []
    else
      var prev := FirstSeen(os[..|os| - 1]);
      var o := os[|os| - 1];
      assert forall i :: 0 <= i < |os| - 1 ==> os[..|os| - 1][i] == os[i];
      if o.key.Some? && !HasKey(prev, o.key.value) then prev + [Row(o.key.value, o.cy)] else prev
  }

  /** The table __extract_dates_row_Ycoords returns for the tokens ws. */
  function DateTable(ws: seq<Word>, year: int, monthText: string, col: Option<real>): (r: seq<Row>)
    ensures UniqueKeys(r) && ValidKeys(r)
    ensures forall i :: 0 <= i < |r| ==> r[i].date.year == year
  {
    FirstSeen(Offers(ws, year, monthText, col))
  }

  /** __extract_dates_row_Ycoords. */
  method ExtractDateRows(words: seq<Word>, year: int, monthText: string, col: Option<real>)
    returns (rows: seq<Row>)
    ensures rows == DateTable(words, year, monthText, col)
  {
    ghost var os := Offers(words, year, monthText, col);
    rows := [];
    var i := 0;
    while i < |words|
      invariant 0 <= i <= |words|
      invariant rows == FirstSeen(os[..i])
    {
      assert os[..i + 1][..i] == os[..i];
      var w := words[i];
      if Admitted(w, col) {
        var key := DateKey(year, monthText, w.text);
        if key.Some? && !HasKey(rows, key.value) {
          rows := rows + [Row(key.value, w.cy)];
        }
      }
      i := i + 1;
    }
    assert os[..i] == os;
  }

  lemma HasKeyAppend(a: seq<Row>, x: Row, d: Date)
    ensures HasKey(a + [x], d) <==> HasKey(a, d) || x.date == d
  {
    if HasKey(a + [x], d) {
      var j :| 0 <= j < |a| + 1 && (a + [x])[j].date == d;
      if j < |a| {
        assert a[j].date == d;
      }
    }
    if HasKey(a, d) {
      var j :| 0 <= j < |a| && a[j].date == d;
      assert (a + [x])[j].date == d;
    }
    assert (a + [x])[|a|] == x;
  }

  /** A date is in the table exactly when some offer names it. */
  lemma {:induction false} FirstSeenKeys(os: seq<Offer>, d: Date)
    ensures HasKey(FirstSeen(os), d) <==> exists i :: 0 <= i < |os| && os[i].key == Some(d)
    decreases |os|
  {
    if |os| > 0 {
      var os' := os[..|os| - 1];
      FirstSeenKeys(os', d);
      assert forall i :: 0 <= i < |os'| ==> os'[i] == os[i];
      var prev := FirstSeen(os');
      var o := os[|os| - 1];
      if o.key.Some? && !HasKey(prev, o.key.value) {
        HasKeyAppend(prev, Row(o.key.value, o.cy), d);
      }
      assert HasKey(FirstSeen(os), d) <==> HasKey(prev, d) || o.key == Some(d);
    }
  }

  /** First seen wins: a date's row holds the cy of the first offer for it; later offers for the
      same date change nothing. */
  lemma {:induction false} FirstSeenWins(os: seq<Offer>, i: nat)
    requires i < |os| && os[i].key.Some?
    requires forall k :: 0 <= k < i ==> os[k].key != os[i].key
    ensures Lookup(FirstSeen(os), os[i].key.value) == Some(os[i].cy)
    decreases |os|
  {
    var d := os[i].key.value;
    var os' := os[..|os| - 1];
    var prev := FirstSeen(os');
    var r := FirstSeen(os);
    if i < |os| - 1 {
      assert os'[i] == os[i];
      assert forall k :: 0 <= k < i ==> os'[k] == os[k];
      FirstSeenWins(os', i);
      PrefixLookup(prev, r, d);
    } else {
      FirstSeenKeys(os', d);
      assert forall k :: 0 <= k < |os'| ==> os'[k] == os[k];
      assert r == prev + [Row(d, os[i].cy)];
      LookupAppend(prev, Row(d, os[i].cy));
    }
  }

  lemma {:induction false} PrefixLookup(a: seq<Row>, b: seq<Row>, d: Date)
    requires a <= b && Lookup(a, d).Some?
    ensures Lookup(b, d) == Lookup(a, d)
    decreases |a|
  {
    if a[0].date != d {
      assert a[1..] <= b[1..];
      PrefixLookup(a[1..], b[1..], d);
    }
  }

  lemma {:induction false} LookupAppend(a: seq<Row>, x: Row)
    requires !HasKey(a, x.date)
    ensures Lookup(a + [x], x.date) == Some(x.cy)
    decreases |a|
  {
    if |a| == 0 {
    } else {
      assert (a + [x])[1..] == a[1..] + [x];
      TailHasNoKey(a, x.date);
      LookupAppend(a[1..], x);
    }
  }

  /** Rows in strictly ascending date order (Python compares dates by year, month, day). */
  predicate Ascending(rows: seq<Row>)
  {
    forall i, j :: 0 <= i < j < |rows| ==> Before(rows[i].date, rows[j].date)
  }

  function InsertRow(x: Row, s: seq<Row>): (r: seq<Row>)
    requires Ascending(s) && !HasKey(s, x.date)
    ensures Ascending(r)
    ensures multiset(r) == multiset(s) + multiset{x}
    ensures r[0] == x || (|s| > 0 && r[0] == s[0])
    decreases |s|
  {
    if |s| == 0 then [x]
    else if Before(x.date, s[0].date) then
      AscendingCons(x, s);
      [x] + s
    else
      assert x.date != s[0].date;
      TailHasNoKey(s, x.date);
      AscendingTail(s);
      var t := InsertRow(x, s[1..]);
      assert s == [s[0]] + s[1..];
      assert Before(s[0].date, t[0].date);
      AscendingCons(s[0], t);
      [s[0]] + t
  }

  /** Before is transitive. */
  lemma BeforeTrans(a: Date, b: Date, c: Date)
    requires Before(a, b) && Before(b, c)
    ensures Before(a, c)
  {
  }

  lemma AscendingTail(s: seq<Row>)
    requires |s| > 0 && Ascending(s)
    ensures Ascending(s[1..])
  {
    assert forall j :: 0 <= j < |s| - 1 ==> s[1..][j] == s[j + 1];
  }

  /** A row before the head of an ascending list extends it. */
  lemma AscendingCons(h: Row, t: seq<Row>)
    requires Ascending(t) && (|t| > 0 ==> Before(h.date, t[0].date))
    ensures Ascending([h] + t)
  {
    var r := [h] + t;
    forall i, j | 0 <= i < j < |r|
      ensures Before(r[i].date, r[j].date)
    {
      if i == 0 && j > 1 {
        BeforeTrans(h.date, t[0].date, t[j - 1].date);
      }
    }
  }

  lemma TailHasNoKey(s: seq<Row>, d: Date)
    requires |s| > 0 && !HasKey(s, d)
    ensures !HasKey(s[1..], d)
  {
    assert forall j :: 0 <= j < |s| - 1 ==> s[1..][j] == s[j + 1];
  }

  /** dict(sorted(table.items())): the same entries in ascending date order. */
  function SortRows(rows: seq<Row>): (r: seq<Row>)
    requires UniqueKeys(rows)
    ensures Ascending(r)
    ensures multiset(r) == multiset(rows)
    decreases |rows|
  {
    if |rows| == 0 then []
    else
      UniqueTail(rows);
      var rest := SortRows(rows[1..]);
      assert rows == [rows[0]] + rows[1..];
      RestHasNoKey(rows, rest);
      InsertRow(rows[0], rest)
  }

  lemma UniqueTail(rows: seq<Row>)
    requires |rows| > 0 && UniqueKeys(rows)
    ensures UniqueKeys(rows[1..])
  {
    assert forall j :: 0 <= j < |rows| - 1 ==> rows[1..][j] == rows[j + 1];
  }

  /** A rearrangement of the tail of a list with unique dates lacks the head's date. */
  lemma RestHasNoKey(rows: seq<Row>, rest: seq<Row>)
    requires |rows| > 0 && UniqueKeys(rows) && multiset(rest) == multiset(rows[1..])
    ensures !HasKey(rest, rows[0].date)
  {
    forall j | 0 <= j < |rest|
      ensures rest[j].date != rows[0].date
    {
      assert rest[j] in multiset(rows[1..]);
      var k :| 0 <= k < |rows| - 1 && rows[1..][k] == rest[j];
      assert rows[k + 1] == rest[j];
    }
  }

  /** Sorting a table that is already in date order changes nothing: this is why the second
      dict(sorted(...)) of get_schedule_list, after gap filling, is the identity. */
  lemma {:induction false} SortRowsSorted(rows: seq<Row>)
    requires Ascending(rows)
    ensures UniqueKeys(rows) && SortRows(rows) == rows
    decreases |rows|
  {
    if |rows| > 0 {
      AscendingTail(rows);
      SortRowsSorted(rows[1..]);
      if |rows| > 1 {
        assert Before(rows[0].date, rows[1].date);
      }
      assert SortRows(rows) == InsertRow(rows[0], rows[1..]);
      assert rows == [rows[0]] + rows[1..];
    }
  }

  /** Sorting keeps every date's row. */
  lemma SortRowsLookup(rows: seq<Row>, d: Date)
    requires UniqueKeys(rows)
    ensures Lookup(SortRows(rows), d) == Lookup(rows, d)
  {
    var s := SortRows(rows);
    assert UniqueKeys(s);
    if Lookup(rows, d).Some? {
      var i := LookupFound(rows, d);
      assert rows[i] in multiset(s);
      LookupMember(s, rows[i]);
    }
    if Lookup(s, d).Some? {
      var i := LookupFound(s, d);
      assert s[i] in multiset(rows);
      LookupMember(rows, s[i]);
    }
  }

  /** In a table with unique keys, a row's date looks up that row's value. */
  lemma LookupMember(rows: seq<Row>, x: Row)
    requires UniqueKeys(rows) && x in rows
    ensures Lookup(rows, x.date) == Some(x.cy)
  {
    var i :| 0 <= i < |rows| && rows[i] == x;
    assert HasKey(rows, x.date);
    var j := LookupFound(rows, x.date);
    assert i == j;
  }
}
