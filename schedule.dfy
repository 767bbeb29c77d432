/** The school-year column and the events printed in it
    (Nichinoken.__extract_school_year_column_Xcoord, __search_date and __extract_schedule). */
module GradeSchedule {
  import opened Outcomes
  import opened Text
  import opened Calendar
  import opened Words
  import opened DateRows

  /** Event keywords for grades 3 to 6 and for grades 1 and 2, and the phrases that disqualify
      a token although it mentions one of them. */
  const KeywordsGrade3To6: seq<string> := ["授業", "テスト", "模試", "講習", "保護者会", "再開", "休講", "休校"]
  const KeywordsGrade1To2: seq<string> := ["ふむふむ", "わくわく"]
  const IgnoreKeywords: seq<string> := ["口座振替日", "授業は", "次回 「"]

  /** The heading of a school year's column; grades 1 and 2 share one column. */
  function GradeMarker(schoolYear: int): (m: string)
    requires 1 <= schoolYear <= 6
    ensures schoolYear <= 2 ==> m == "1・2年生"
    ensures schoolYear >= 3 ==> m == [DigitChar(schoolYear)] + "年生"
  {
    if schoolYear == 1 || schoolYear == 2 then "1・2年生" else NatToString(schoolYear) + "年生"
  }

  /** The first token, from index i on, whose text contains the marker. */
  function FirstMarked(words: seq<Word>, marker: string, i: nat): (r: Option<nat>)
    requires i <= |words|
    ensures r.None? <==> forall k :: i <= k < |words| ==> !Contains(words[k].text, marker)
    ensures r.Some? ==> i <= r.value < |words| && Contains(words[r.value].text, marker)
    ensures r.Some? ==> forall k :: i <= k < r.value ==> !Contains(words[k].text, marker)
    decreases |words| - i
  {
    if i == |words| then None
    else if Contains(words[i].text, marker) then Some(i)
    else FirstMarked(words, marker, i + 1)
  }

  /** What __extract_school_year_column_Xcoord returns: the centre of the first token that
      carries the heading, or -1 when no token does. */
  function GradeColumn(words: seq<Word>, schoolYear: int): (x: real)
    requires 1 <= schoolYear <= 6
    ensures (forall k :: 0 <= k < |words| ==> !Contains(words[k].text, GradeMarker(schoolYear))) ==> x == -1.0
    ensures (exists k :: 0 <= k < |words| && Contains(words[k].text, GradeMarker(schoolYear))) ==>
      exists i :: 0 <= i < |words| && Contains(words[i].text, GradeMarker(schoolYear)) && x == words[i].cx &&
        forall k :: 0 <= k < i ==> !Contains(words[k].text, GradeMarker(schoolYear))
  {
    match FirstMarked(words, GradeMarker(schoolYear), 0)
    case Some(i) => words[i].cx
    case None => -1.0
  }

  /** __extract_school_year_column_Xcoord. */
  method GradeColumnX(words: seq<Word>, schoolYear: int) returns (x: real)
    requires 1 <= schoolYear <= 6
    ensures x == GradeColumn(words, schoolYear)
  {
    var marker := GradeMarker(schoolYear);
    var i := 0;
    while i < |words|
      invariant 0 <= i <= |words|
      invariant FirstMarked(words, marker, i) == FirstMarked(words, marker, 0)
    {
      if Contains(words[i].text, marker) {
        return words[i].cx;
      }
      i := i + 1;
    }
    return -1.0;
  }

  /** any(keyword in text for keyword in keywords). */
  predicate AnyIn(keywords: seq<string>, text: string)
  {
    exists i :: 0 <= i < |keywords| && Contains(text, keywords[i])
  }

  function TargetKeywords(schoolYear: int): seq<string>
  {
    if schoolYear == 1 || schoolYear == 2 then KeywordsGrade1To2 else KeywordsGrade3To6
  }

  /** The token lies in the school year's column and is narrow enough to be one cell. */
  predicate InBand(w: Word, gradeX: real)
  {
    Abs(w.cx - gradeX) <= WordGradeDistance && w.width < WordMaxWidth
  }

  /** The token is an event of the school year. */
  predicate IsEvent(w: Word, gradeX: real, schoolYear: int)
  {
    InBand(w, gradeX) && !AnyIn(IgnoreKeywords, w.text) && AnyIn(TargetKeywords(schoolYear), w.text)
  }

  /** The event tokens, in token order. */
  function Kept(words: seq<Word>, gradeX: real, schoolYear: int): (r: seq<Word>)
    ensures |r| <= |words|
    ensures forall k :: 0 <= k < |r| ==> IsEvent(r[k], gradeX, schoolYear) && r[k] in words
    decreases |words|
  {
    if |words| == 0 then []
    else
      var w := words[|words| - 1];
      var prev := Kept(words[..|words| - 1], gradeX, schoolYear);
      assert forall x :: x in words[..|words| - 1] ==> x in words;
      prev + (if IsEvent(w, gradeX, schoolYear) then [w] else [])
  }

  /** Filtering a concatenation filters each part. */
  lemma {:induction false} KeptConcat(a: seq<Word>, b: seq<Word>, gradeX: real, schoolYear: int)
    ensures Kept(a + b, gradeX, schoolYear) == Kept(a, gradeX, schoolYear) + Kept(b, gradeX, schoolYear)
    decreases |b|
  {
    if |b| == 0 {
      assert a + b == a;
    } else {
      var b' := b[..|b| - 1];
      assert (a + b)[..|a + b| - 1] == a + b';
      KeptConcat(a, b', gradeX, schoolYear);
    }
  }

  /** One token is kept, once, exactly when it is an event token; with KeptConcat this fixes
      Kept on every list, so each event token is kept as often as it occurs. */
  lemma KeptWord(w: Word, gradeX: real, schoolYear: int)
    ensures Kept([w], gradeX, schoolYear) == if IsEvent(w, gradeX, schoolYear) then [w] else []
  {
    assert [w][..0] == [];
  }

  /** No event token is dropped: Kept is exactly the filter. */
  lemma {:induction false} KeptComplete(words: seq<Word>, gradeX: real, schoolYear: int, i: nat)
    requires i < |words| && IsEvent(words[i], gradeX, schoolYear)
    ensures words[i] in Kept(words, gradeX, schoolYear)
  {
    assert words == words[..i] + [words[i]] + words[i + 1..];
    KeptConcat(words[..i] + [words[i]], words[i + 1..], gradeX, schoolYear);
    KeptConcat(words[..i], [words[i]], gradeX, schoolYear);
    KeptWord(words[i], gradeX, schoolYear);
  }

  /** np.argmin(np.absolute(values - cy)): the first index of the least distance. */
  function ArgMin(rows: seq<Row>, cy: real): (p: nat)
    requires |rows| > 0
    ensures p < |rows|
    ensures forall k :: 0 <= k < |rows| ==> Abs(rows[p].cy - cy) <= Abs(rows[k].cy - cy)
    ensures forall k :: 0 <= k < p ==> Abs(rows[k].cy - cy) > Abs(rows[p].cy - cy)
    decreases |rows|
  {
    if |rows| == 1 then 0
    else
      var n := |rows| - 1;
      var q := ArgMin(rows[..n], cy);
      assert forall k :: 0 <= k < n ==> rows[..n][k] == rows[k];
      if Abs(rows[n].cy - cy) < Abs(rows[q].cy - cy) then n else q
  }

  /** __search_date: the date whose row lies nearest to cy; over an empty table numpy raises. */
  function SearchDate(rows: seq<Row>, cy: real): (r: Result<Date>)
    ensures r.Err? <==> |rows| == 0
    ensures r.Err? ==> r.error == EmptyArgmin
    ensures r.Ok? ==> HasKey(rows, r.value)
    ensures r.Ok? ==>
      exists p :: 0 <= p < |rows| && r.value == rows[p].date &&
        (forall k :: 0 <= k < |rows| ==> Abs(rows[p].cy - cy) <= Abs(rows[k].cy - cy)) &&
        (forall k :: 0 <= k < p ==> Abs(rows[k].cy - cy) > Abs(rows[p].cy - cy))
  {
    if |rows| == 0 then Err(EmptyArgmin)
    else
      var p := ArgMin(rows, cy);
      assert rows[p].date == rows[p].date;
      Ok(rows[p].date)
  }

  /** text.replace("\n", " "): an event name is its text on one line. */
  function EventName(text: string): (name: string)
    ensures |name| == |text|
    ensures forall i :: 0 <= i < |text| ==> name[i] == if text[i] == '\n' then ' ' else text[i]
    ensures forall c :: c in name ==> c != '\n'
  {
    ReplaceCharPointwise(text, '\n', ' ');
    var name := ReplaceAll(text, "\n", " ");
    assert forall c :: c in name ==> c != '\n';
    name
  }

  /** The event an event token yields. */
  function EventOf(rows: seq<Row>, w: Word): Event
    requires |rows| > 0
  {
    Event(rows[ArgMin(rows, w.cy)].date, EventName(w.text))
  }

  /** The events of a run of event tokens, in order. */
  function Events(rows: seq<Row>, kept: seq<Word>): (es: seq<Event>)
    requires |rows| > 0
    ensures |es| == |kept|
    decreases |kept|
  {
    if |kept| == 0 then [] else Events(rows, kept[..|kept| - 1]) + [EventOf(rows, kept[|kept| - 1])]
  }

  lemma {:induction false} EventsAt(rows: seq<Row>, kept: seq<Word>, k: nat)
    requires |rows| > 0 && k < |kept|
    ensures Events(rows, kept)[k] == EventOf(rows, kept[k])
    decreases |kept|
  {
    if k < |kept| - 1 {
      EventsAt(rows, kept[..|kept| - 1], k);
    }
  }

  /** What __extract_schedule returns: one event per event token, in token order; the first
      event token raises when the date table is empty. */
  function Schedule(words: seq<Word>, rows: seq<Row>, gradeX: real, schoolYear: int): Result<seq<Event>>
  {
    var kept := Kept(words, gradeX, schoolYear);
    if |kept| == 0 then Ok([])
    else if |rows| == 0 then Err(EmptyArgmin)
    else Ok(Events(rows, kept))
  }

  /** __extract_schedule (its year parameter is unused). */
  method ExtractSchedule(words: seq<Word>, rows: seq<Row>, gradeX: real, schoolYear: int, year: int)
    returns (r: Result<seq<Event>>)
    ensures r == Schedule(words, rows, gradeX, schoolYear)
  {
    var keywords := if schoolYear == 1 || schoolYear == 2 then KeywordsGrade1To2 else KeywordsGrade3To6;
    var events: seq<Event> := [];
    var i := 0;
    while i < |words|
      invariant 0 <= i <= |words|
      invariant Schedule(words[..i], rows, gradeX, schoolYear) == Ok(events)
    {
      var w := words[i];
      if InBand(w, gradeX) && !AnyIn(IgnoreKeywords, w.text) && AnyIn(keywords, w.text) {
        var date := SearchDate(rows, w.cy);
        if date.Err? {
          ScheduleFails(words, rows, gradeX, schoolYear, i);
          return Err(date.error);
        }
        var e := Event(date.value, EventName(w.text));
        ScheduleStep(words, rows, gradeX, schoolYear, i);
        events := events + [e];
      } else {
        ScheduleStep(words, rows, gradeX, schoolYear, i);
      }
      i := i + 1;
    }
    assert words[..i] == words;
    return Ok(events);
  }

  /** One more token either adds its event or leaves the schedule as it was. */
  lemma ScheduleStep(words: seq<Word>, rows: seq<Row>, gradeX: real, schoolYear: int, i: nat)
    requires i < |words| && Schedule(words[..i], rows, gradeX, schoolYear).Ok?
    requires IsEvent(words[i], gradeX, schoolYear) ==> |rows| > 0
    ensures Schedule(words[..i + 1], rows, gradeX, schoolYear) ==
      if IsEvent(words[i], gradeX, schoolYear)
      then Ok(Schedule(words[..i], rows, gradeX, schoolYear).value + [EventOf(rows, words[i])])
      else Schedule(words[..i], rows, gradeX, schoolYear)
  {
    var before := Kept(words[..i], gradeX, schoolYear);
    assert words[..i + 1][..i] == words[..i];
    if IsEvent(words[i], gradeX, schoolYear) {
      assert Kept(words[..i + 1], gradeX, schoolYear) == before + [words[i]];
      assert (before + [words[i]])[..|before|] == before;
    } else {
      assert Kept(words[..i + 1], gradeX, schoolYear) == before;
    }
  }

  /** An event token with an empty date table makes the whole schedule fail. */
  lemma ScheduleFails(words: seq<Word>, rows: seq<Row>, gradeX: real, schoolYear: int, i: nat)
    requires i < |words| && IsEvent(words[i], gradeX, schoolYear) && |rows| == 0
    ensures Schedule(words, rows, gradeX, schoolYear) == Err(EmptyArgmin)
  {
    assert words[..i + 1][..i] == words[..i];
    assert words == words[..i + 1] + words[i + 1..];
    KeptConcat(words[..i + 1], words[i + 1..], gradeX, schoolYear);
  }

  /** __extract_schedule raises exactly when the date table is empty and some token is an event
      token. */
  lemma ScheduleErrors(words: seq<Word>, rows: seq<Row>, gradeX: real, schoolYear: int)
    ensures Schedule(words, rows, gradeX, schoolYear).Err? <==>
      |rows| == 0 && exists i :: 0 <= i < |words| && IsEvent(words[i], gradeX, schoolYear)
    ensures Schedule(words, rows, gradeX, schoolYear).Err? ==>
      Schedule(words, rows, gradeX, schoolYear).error == EmptyArgmin
  {
    if exists i :: 0 <= i < |words| && IsEvent(words[i], gradeX, schoolYear) {
      var i :| 0 <= i < |words| && IsEvent(words[i], gradeX, schoolYear);
      KeptComplete(words, gradeX, schoolYear, i);
    }
    var kept := Kept(words, gradeX, schoolYear);
    if |kept| > 0 {
      assert kept[0] in words;
      var i :| 0 <= i < |words| && words[i] == kept[0];
      assert IsEvent(words[i], gradeX, schoolYear);
    }
  }

  /** An event token is dated by the row nearest to it (the first such row on a tie) and named by
      its text on one line. */
  predicate EventFor(rows: seq<Row>, w: Word, e: Event)
  {
    e.name == EventName(w.text) &&
    exists p :: 0 <= p < |rows| && e.date == rows[p].date &&
      (forall j :: 0 <= j < |rows| ==> Abs(rows[p].cy - w.cy) <= Abs(rows[j].cy - w.cy)) &&
      (forall j :: 0 <= j < p ==> Abs(rows[j].cy - w.cy) > Abs(rows[p].cy - w.cy))
  }

  lemma EventOfSpec(rows: seq<Row>, w: Word)
    requires |rows| > 0
    ensures EventFor(rows, w, EventOf(rows, w))
  {
    var p := ArgMin(rows, w.cy);
  }

  /** Otherwise __extract_schedule returns one event per event token, in token order, and never
      one for a token that an ignored phrase disqualifies. */
  lemma ScheduleEvents(words: seq<Word>, rows: seq<Row>, gradeX: real, schoolYear: int)
    requires Schedule(words, rows, gradeX, schoolYear).Ok?
    ensures var es, kept := Schedule(words, rows, gradeX, schoolYear).value, Kept(words, gradeX, schoolYear);
      |es| == |kept| &&
      forall k :: 0 <= k < |es| ==>
        kept[k] in words && InBand(kept[k], gradeX) && !AnyIn(IgnoreKeywords, kept[k].text) &&
        AnyIn(TargetKeywords(schoolYear), kept[k].text) && EventFor(rows, kept[k], es[k])
  {
    var es, kept := Schedule(words, rows, gradeX, schoolYear).value, Kept(words, gradeX, schoolYear);
    forall k | 0 <= k < |es| ensures EventFor(rows, kept[k], es[k]) {
      EventsAt(rows, kept, k);
      EventOfSpec(rows, kept[k]);
    }
  }

  /** Grades 1 and 2 look for the same events, and so do grades 3 to 6. */
  lemma ShareKeywords(words: seq<Word>, rows: seq<Row>, gradeX: real, a: int, b: int)
    requires (a in {1, 2} && b in {1, 2}) || (3 <= a <= 6 && 3 <= b <= 6)
    ensures Schedule(words, rows, gradeX, a) == Schedule(words, rows, gradeX, b)
  {
    KeptSameKeywords(words, gradeX, a, b);
  }

  lemma {:induction false} KeptSameKeywords(words: seq<Word>, gradeX: real, a: int, b: int)
    requires TargetKeywords(a) == TargetKeywords(b)
    ensures Kept(words, gradeX, a) == Kept(words, gradeX, b)
    decreases |words|
  {
    if |words| > 0 {
      KeptSameKeywords(words[..|words| - 1], gradeX, a, b);
    }
  }
}
