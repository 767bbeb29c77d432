/** The notification text of main.py: a label and a calendar link per event (build_urls) and
    the events grouped into messages of a few events each (build_messages, with numpy's
    array_split). */
module Messages {
  import opened Outcomes
  import opened Text
  import opened Calendar
  import opened Words

  /** WEEK_OF_DAY_MAPPING: the one-character weekday names, indexed by date.weekday(). */
  const WeekdayNames: string := "月火水木金土日"
  const EventsPerMessage: int := 3
  const BaseUrl: string := "https://www.google.com/calendar/render?action=TEMPLATE"

  /** The label of an event: "YYYY-MM-DD（weekday） name". */
  function Label(e: Event): string
    requires Valid(e.date)
  {
    IsoFormat(e.date) + "（" + [WeekdayNames[Weekday(e.date)]] + "） " + e.name
  }

  /** The layout of a label around its ten-character date. */
  lemma LabelShape(iso: string, w: char, name: string)
    requires |iso| == 10
    ensures var s := iso + "（" + [w] + "） " + name;
      |s| == 14 + |name| && s[..10] == iso && s[10] == '（' && s[11] == w && s[12] == '）' &&
      s[13] == ' ' && s[14..] == name
  {
    var s := iso + "（" + [w] + "） " + name;
    var mid := "（" + [w] + "） ";
    assert s == iso + mid + name;
    assert |mid| == 4 && mid[0] == '（' && mid[1] == w && mid[2] == '）' && mid[3] == ' ';
  }

  /** A label opens with the event's date, which reads back as that date, then its weekday in
      full-width brackets, and ends with the event's name. */
  lemma LabelParts(e: Event)
    requires Valid(e.date)
    ensures var s := Label(e);
      |s| == 14 + |e.name| && s[10] == '（' && s[12] == '）' && s[13] == ' ' &&
      s[11] == WeekdayNames[Weekday(e.date)] && s[14..] == e.name &&
      s[4] == '-' && s[7] == '-' &&
      AllDigits(s[..4]) && AllDigits(s[5..7]) && AllDigits(s[8..10]) &&
      DigitsValue(s[..4]) == e.date.year && DigitsValue(s[5..7]) == e.date.month &&
      DigitsValue(s[8..10]) == e.date.day
  {
    var iso := IsoFormat(e.date);
    IsoFormatParses(e.date);
    LabelShape(iso, WeekdayNames[Weekday(e.date)], e.name);
    var s := Label(e);
    assert s[..10] == iso;
    assert s[..4] == iso[..4] && s[5..7] == iso[5..7] && s[8..10] == iso[8..];
  }

  /** str(date).replace("-", ""). */
  function DateDigits(d: Date): string
    requires Valid(d)
  {
    ReplaceAll(IsoFormat(d), "-", "")
  }

  /** Dropping the dashes of "Y-M-D" leaves "YMD" when the fields hold digits only. */
  lemma DropDashes(y: string, m: string, dd: string)
    requires AllDigits(y) && AllDigits(m) && AllDigits(dd)
    ensures ReplaceAll(y + "-" + m + "-" + dd, "-", "") == y + m + dd
  {
    ReplaceCharAbsent(y, '-', "");
    ReplaceCharAbsent(m, '-', "");
    ReplaceCharAbsent(dd, '-', "");
    var dash := ReplaceAll("-", "-", "");
    assert dash == [];
    var a1 := y + "-";
    ReplaceCharConcat(y, "-", '-', "");
    assert ReplaceAll(a1, "-", "") == y;
    var a2 := a1 + m;
    ReplaceCharConcat(a1, m, '-', "");
    assert ReplaceAll(a2, "-", "") == y + m;
    var a3 := a2 + "-";
    ReplaceCharConcat(a2, "-", '-', "");
    assert ReplaceAll(a3, "-", "") == y + m;
    ReplaceCharConcat(a3, dd, '-', "");
  }

  /** The date field of a link is the date as eight digits YYYYMMDD, which read back as the
      year, the month and the day. */
  lemma DateDigitsParts(d: Date)
    requires Valid(d)
    ensures var s := DateDigits(d);
      |s| == 8 && s == PadNat(d.year, 4) + PadNat(d.month, 2) + PadNat(d.day, 2) &&
      AllDigits(s) && DigitsValue(s[..4]) == d.year && DigitsValue(s[4..6]) == d.month &&
      DigitsValue(s[6..]) == d.day
  {
    FieldWidths(d);
    var y, m, dd := PadNat(d.year, 4), PadNat(d.month, 2), PadNat(d.day, 2);
    DropDashes(y, m, dd);
    var s := y + m + dd;
    assert DateDigits(d) == s;
    assert s[..4] == y && s[4..6] == m && s[6..] == dd;
    assert AllDigits(s) by {
      assert forall i :: 0 <= i < 8 ==> s[i] == if i < 4 then y[i] else if i < 6 then m[i - 4] else dd[i - 6];
    }
  }

  /** The calendar link of an event; quote is urllib.parse.quote, which is not modelled. */
  function Url(e: Event, quote: string -> string): string
    requires Valid(e.date)
  {
    var dates := DateDigits(e.date);
    BaseUrl + "&text=" + quote(e.name) + "&details=&dates=" + dates + "/" + dates + "&sf=true&output=xml"
  }

  /** The layout of a link around its quoted text and its eight-digit dates. */
  lemma UrlShape(head: string, q: string, dates: string)
    requires |dates| == 8
    ensures var u, t := head + "&text=" + q + "&details=&dates=" + dates + "/" + dates + "&sf=true&output=xml", |head| + 6;
      var i := t + |q| + 16;
      |u| == i + 36 && u[..t] == head + "&text=" && u[t..t + |q|] == q &&
      u[i..i + 8] == dates && u[i + 8] == '/' && u[i + 9..i + 17] == dates
  {
    var front := head + "&text=";
    var t := |front|;
    var mid := front + q + "&details=&dates=";
    var i := |mid|;
    var tail := dates + "/" + dates + "&sf=true&output=xml";
    var u := mid + tail;
    assert u == head + "&text=" + q + "&details=&dates=" + dates + "/" + dates + "&sf=true&output=xml";
    assert |tail| == 36;
    assert u[..t] == front;
    assert u[t..t + |q|] == q;
    assert u[i..] == tail;
    assert tail[..8] == dates && tail[8] == '/' && tail[9..17] == dates;
  }

  /** A link carries the quoted name as its text and the event's day (eight digits, by
      DateDigitsParts) as both the start and the end of the calendar entry. */
  lemma UrlParts(e: Event, quote: string -> string)
    requires Valid(e.date)
    ensures var u, t := Url(e, quote), |BaseUrl| + 6;
      var i := t + |quote(e.name)| + 16;
      |u| == i + 36 && u[..t] == BaseUrl + "&text=" && u[t..t + |quote(e.name)|] == quote(e.name) &&
      u[i..i + 8] == DateDigits(e.date) && u[i + 8] == '/' && u[i + 9..i + 17] == DateDigits(e.date)
  {
    DateDigitsParts(e.date);
    UrlShape(BaseUrl, quote(e.name), DateDigits(e.date));
  }

  predicate AllValid(events: seq<Event>)
  {
    forall i :: 0 <= i < |events| ==> Valid(events[i].date)
  }

  /** The results of f on each event, in event order (a list built by appending in a loop). */
  function MapEvents(events: seq<Event>, f: Event --> string): (r: seq<string>)
    requires forall k :: 0 <= k < |events| ==> f.requires(events[k])
    ensures |r| == |events|
    decreases |events|
  {
    if |events| == 0 then [] else MapEvents(events[..|events| - 1], f) + [f(events[|events| - 1])]
  }

  /** One more event appends its result. */
  lemma MapEventsStep(events: seq<Event>, f: Event --> string, i: nat)
    requires forall k :: 0 <= k < |events| ==> f.requires(events[k])
    requires i < |events|
    ensures MapEvents(events[..i + 1], f) == MapEvents(events[..i], f) + [f(events[i])]
  {
    assert events[..i + 1][..i] == events[..i];
  }

  /** The k-th result is f of the k-th event. */
  lemma {:induction false} MapEventsAt(events: seq<Event>, f: Event --> string, k: nat)
    requires forall k :: 0 <= k < |events| ==> f.requires(events[k])
    requires k < |events|
    ensures MapEvents(events, f)[k] == f(events[k])
    decreases |events|
  {
    var n := |events| - 1;
    if k < n {
      MapEventsAt(events[..n], f, k);
    }
  }

  /** The link of an event for a fixed quoting function. */
  function UrlWith(quote: string -> string): Event --> string
  {
    (e: Event) requires Valid(e.date) => Url(e, quote)
  }

  /** The labels of the events, in event order. */
  function Labels(events: seq<Event>): seq<string>
    requires AllValid(events)
  {
    MapEvents(events, Label)
  }

  /** The calendar links of the events, in event order. */
  function Urls(events: seq<Event>, quote: string -> string): seq<string>
    requires AllValid(events)
  {
    MapEvents(events, UrlWith(quote))
  }

  /** One label and one link per event: the k-th of each belongs to the k-th event. */
  lemma LinksAt(events: seq<Event>, quote: string -> string, k: nat)
    requires AllValid(events) && k < |events|
    ensures |Labels(events)| == |Urls(events, quote)| == |events|
    ensures Labels(events)[k] == Label(events[k])
    ensures Urls(events, quote)[k] == Url(events[k], quote)
  {
    MapEventsAt(events, Label, k);
    MapEventsAt(events, UrlWith(quote), k);
  }

  /** build_urls: one label and one link per event, in event order. */
  method BuildUrls(events: seq<Event>, quote: string -> string) returns (labels: seq<string>, urls: seq<string>)
    requires AllValid(events)
    ensures labels == Labels(events) && urls == Urls(events, quote)
  {
    labels, urls := [], [];
    var i := 0;
    while i < |events|
      invariant 0 <= i <= |events|
      invariant labels == Labels(events[..i]) && urls == Urls(events[..i], quote)
    {
      MapEventsStep(events, Label, i);
      MapEventsStep(events, UrlWith(quote), i);
      labels := labels + [Label(events[i])];
      urls := urls + [Url(events[i], quote)];
      i := i + 1;
    }
    assert events[..i] == events;
  }

  /** The list of message items: a label and its link per pair, zip() stopping at the shorter. */
  function Items(labels: seq<string>, urls: seq<string>): (items: seq<string>)
    ensures |items| == if |labels| < |urls| then |labels| else |urls|
  {
    var n := if |labels| < |urls| then |labels| else |urls|;
    seq(n, i requires 0 <= i < n => "\n■ " + labels[i] + "\n" + urls[i])
  }

  /** int(np.ceil(n / k)) checked as array_split checks it: dividing by zero raises
      ZeroDivisionError, and a count that is not positive raises ValueError. */
  function SectionCount(n: nat, k: int): (r: Result<nat>)
    ensures r.Err? <==> k <= 0 || n == 0
    ensures r.Err? ==> r.error == if k == 0 then ZeroDivision else NoSections
    ensures r.Ok? ==> 1 <= r.value <= n && (r.value - 1) * k < n <= r.value * k
  {
    if k == 0 then Err(ZeroDivision)
    else if k < 0 || n == 0 then Err(NoSections)
    else
      CeilBounds(n, k);
      Ok((n - 1) / k + 1)
  }

  /** (n - 1) / k + 1 is the ceiling of n / k. */
  lemma CeilBounds(n: nat, k: int)
    requires n >= 1 && k >= 1
    ensures var c := (n - 1) / k + 1; 1 <= c <= n && (c - 1) * k < n <= c * k
  {
    var q, r := (n - 1) / k, (n - 1) % k;
    assert q >= 0;
    assert n - 1 == q * k + r && 0 <= r < k;
    var qk := q * k;
    MulSucc(q, k);
    assert (q + 1) * k == qk + k;
    MulAtLeast(q, k);
    assert qk >= q;
  }

  lemma MulSucc(a: int, k: int)
    ensures (a + 1) * k == a * k + k
  {
  }

  lemma MulAtLeast(a: nat, k: int)
    requires k >= 1
    ensures a * k >= a
  {
    assert a * k == a + a * (k - 1);
  }

  /** The size of the i-th of m sections of n items: the first n % m sections take one more. */
  function SectionSize(n: nat, m: nat, i: nat): nat
    requires m > 0
  {
    n / m + (if i < n % m then 1 else 0)
  }

  /** Where section i starts (the cumulative sum of the section sizes). */
  function SectionStart(n: nat, m: nat, i: nat): nat
    requires m > 0
  {
    if i == 0 then 0 else SectionStart(n, m, i - 1) + SectionSize(n, m, i - 1)
  }

  lemma {:induction false} SectionStartClosed(n: nat, m: nat, i: nat)
    requires m > 0
    ensures SectionStart(n, m, i) == i * (n / m) + (if i < n % m then i else n % m)
  {
    if i > 0 {
      SectionStartClosed(n, m, i - 1);
      MulSucc(i - 1, n / m);
    }
  }

  /** The sections run from 0 to n without gaps. */
  lemma SectionEnds(n: nat, m: nat, i: nat)
    requires m > 0 && i <= m
    ensures SectionStart(n, m, i) <= n
    ensures SectionStart(n, m, m) == n
  {
    SectionStartClosed(n, m, i);
    SectionStartClosed(n, m, m);
    var q, e := n / m, n % m;
    assert n == m * q + e;
    MulMono(i, m, q);
  }

  lemma MulMono(a: nat, b: nat, c: nat)
    requires a <= b
    ensures a * c <= b * c
  {
    assert b * c - a * c == (b - a) * c;
  }

  /** Section i of the m sections of numpy's array_split. */
  function Section(items: seq<string>, m: nat, i: nat): seq<string>
    requires 0 < m && i < m
  {
    var n := |items|;
    SectionEnds(n, m, i);
    SectionEnds(n, m, i + 1);
    items[SectionStart(n, m, i)..SectionStart(n, m, i + 1)]
  }

  /** A section holds as many items as its size says. */
  lemma SectionLength(items: seq<string>, m: nat, i: nat)
    requires 0 < m && i < m
    ensures |Section(items, m, i)| == SectionSize(|items|, m, i)
  {
    SectionEnds(|items|, m, i);
    SectionEnds(|items|, m, i + 1);
  }

  /** The first j sections. */
  function Sections(items: seq<string>, m: nat, j: nat): (r: seq<seq<string>>)
    requires 0 < m && j <= m
    ensures |r| == j
  {
    if j == 0 then [] else Sections(items, m, j - 1) + [Section(items, m, j - 1)]
  }

  /** The messages of a run of sections. */
  function Joined(sections: seq<seq<string>>): (r: seq<string>)
    ensures |r| == |sections|
  {
    if |sections| == 0 then [] else Joined(sections[..|sections| - 1]) + [Join(sections[|sections| - 1], "\n")]
  }

  /** What build_messages returns. */
  function MessageList(labels: seq<string>, urls: seq<string>, eventsPerMessage: int): Result<seq<string>>
  {
    var items := Items(labels, urls);
    match SectionCount(|items|, eventsPerMessage)
    case Err(e) => Err(e)
    case Ok(m) => Ok(Joined(Sections(items, m, m)))
  }

  /** build_messages. */
  method BuildMessages(labels: seq<string>, urls: seq<string>, eventsPerMessage: int) returns (r: Result<seq<string>>)
    ensures r == MessageList(labels, urls, eventsPerMessage)
  {
    var items := Items(labels, urls);
    var count := SectionCount(|items|, eventsPerMessage);
    if count.Err? {
      return Err(count.error);
    }
    var m := count.value;
    var messages: seq<string> := [];
    var i := 0;
    while i < m
      invariant 0 <= i <= m
      invariant messages == Joined(Sections(items, m, i))
    {
      JoinedStep(items, m, i);
      messages := messages + [Join(Section(items, m, i), "\n")];
      i := i + 1;
    }
    return Ok(messages);
  }

  lemma JoinedStep(items: seq<string>, m: nat, i: nat)
    requires 0 < m && i < m
    ensures Joined(Sections(items, m, i + 1)) == Joined(Sections(items, m, i)) + [Join(Section(items, m, i), "\n")]
  {
    var next := Sections(items, m, i + 1);
    assert next[..i] == Sections(items, m, i);
    assert next[i] == Section(items, m, i);
  }

  lemma {:induction false} SectionsAt(items: seq<string>, m: nat, j: nat, i: nat)
    requires 0 < m && i < j <= m
    ensures Sections(items, m, j)[i] == Section(items, m, i)
  {
    if i < j - 1 {
      SectionsAt(items, m, j - 1, i);
    }
  }

  lemma {:induction false} JoinedAt(sections: seq<seq<string>>, i: nat)
    requires i < |sections|
    ensures Joined(sections)[i] == Join(sections[i], "\n")
    decreases |sections|
  {
    if i < |sections| - 1 {
      JoinedAt(sections[..|sections| - 1], i);
    }
  }

  function Flatten(ss: seq<seq<string>>): seq<string>
  {
    if |ss| == 0 then [] else Flatten(ss[..|ss| - 1]) + ss[|ss| - 1]
  }

  /** The first j sections, put back together, are the items before section j. */
  lemma {:induction false} SectionsPrefix(items: seq<string>, m: nat, j: nat)
    requires 0 < m && j <= m
    ensures SectionStart(|items|, m, j) <= |items|
    ensures Flatten(Sections(items, m, j)) == items[..SectionStart(|items|, m, j)]
  {
    SectionEnds(|items|, m, j);
    if j > 0 {
      SectionsPrefix(items, m, j - 1);
      var s := Sections(items, m, j);
      assert s[..j - 1] == Sections(items, m, j - 1);
      SectionEnds(|items|, m, j - 1);
      var a, b := SectionStart(|items|, m, j - 1), SectionStart(|items|, m, j);
      assert items[..b] == items[..a] + items[a..b];
    }
  }

  /** The messages hold every item exactly once, in order: the sections of every successful
      split put back together are the items. */
  lemma SectionsCover(labels: seq<string>, urls: seq<string>, eventsPerMessage: int)
    requires MessageList(labels, urls, eventsPerMessage).Ok?
    ensures var items, m := Items(labels, urls), SectionCount(|Items(labels, urls)|, eventsPerMessage).value;
      Flatten(Sections(items, m, m)) == items
  {
    var items := Items(labels, urls);
    var m := SectionCount(|items|, eventsPerMessage).value;
    SectionsPrefix(items, m, m);
    SectionEnds(|items|, m, m);
    assert items[..|items|] == items;
  }

  /** Message i is section i of the items joined by newlines. */
  lemma MessagesJoinSections(labels: seq<string>, urls: seq<string>, eventsPerMessage: int)
    requires MessageList(labels, urls, eventsPerMessage).Ok?
    ensures var items, m := Items(labels, urls), SectionCount(|Items(labels, urls)|, eventsPerMessage).value;
      |MessageList(labels, urls, eventsPerMessage).value| == m &&
      forall i :: 0 <= i < m ==> MessageList(labels, urls, eventsPerMessage).value[i] == Join(Section(items, m, i), "\n")
  {
    var items := Items(labels, urls);
    var m := SectionCount(|items|, eventsPerMessage).value;
    var ss := Sections(items, m, m);
    forall i | 0 <= i < m ensures Joined(ss)[i] == Join(Section(items, m, i), "\n") {
      SectionsAt(items, m, m, i);
      JoinedAt(ss, i);
    }
  }

  /** There are ceil(n / eventsPerMessage) messages, each joining between one and
      eventsPerMessage items, the larger sections first and no two sizes more than one apart. */
  lemma MessageSizes(labels: seq<string>, urls: seq<string>, eventsPerMessage: int)
    requires MessageList(labels, urls, eventsPerMessage).Ok?
    ensures var items, m := Items(labels, urls), SectionCount(|Items(labels, urls)|, eventsPerMessage).value;
      (m - 1) * eventsPerMessage < |items| <= m * eventsPerMessage &&
      forall i :: 0 <= i < m ==>
        1 <= |Section(items, m, i)| <= eventsPerMessage &&
        (forall j :: i <= j < m ==> |Section(items, m, j)| <= |Section(items, m, i)| <= |Section(items, m, j)| + 1)
  {
    var items := Items(labels, urls);
    var n := |items|;
    var m := SectionCount(n, eventsPerMessage).value;
    SizeBounds(n, m, eventsPerMessage);
    forall i | 0 <= i < m ensures |Section(items, m, i)| == SectionSize(n, m, i) {
      SectionLength(items, m, i);
    }
  }

  /** With main.py's EVENTS_PER_MESSAGE of 3: an empty event list raises, and otherwise there
      are ceil(n / 3) messages, each joining one to three consecutive items. */
  lemma NotificationMessages(labels: seq<string>, urls: seq<string>)
    ensures MessageList(labels, urls, EventsPerMessage).Err? <==> |Items(labels, urls)| == 0
    ensures MessageList(labels, urls, EventsPerMessage).Err? ==>
      MessageList(labels, urls, EventsPerMessage).error == NoSections
    ensures MessageList(labels, urls, EventsPerMessage).Ok? ==>
      var items, ms := Items(labels, urls), MessageList(labels, urls, EventsPerMessage).value;
      |ms| == (|items| + 2) / 3 &&
      forall i :: 0 <= i < |ms| ==>
        1 <= |Section(items, |ms|, i)| <= 3 && ms[i] == Join(Section(items, |ms|, i), "\n")
  {
    if MessageList(labels, urls, EventsPerMessage).Ok? {
      MessageSizes(labels, urls, EventsPerMessage);
      MessagesJoinSections(labels, urls, EventsPerMessage);
    }
  }

  /** With m = ceil(n / k) sections, each section holds between one and k items. */
  lemma SizeBounds(n: nat, m: nat, k: int)
    requires 1 <= m <= n && (m - 1) * k < n <= m * k
    ensures forall i :: 0 <= i < m ==> 1 <= SectionSize(n, m, i) <= k
  {
    var q, e := n / m, n % m;
    assert n == q * m + e && 0 <= e < m;
    assert q >= 1;
    assert q * m <= n <= k * m;
    MulBound(q, k, m);
    if e > 0 {
      assert q * m < k * m;
      MulLess(q, k, m);
    }
  }

  lemma MulBound(a: int, b: int, c: int)
    requires c > 0 && a * c <= b * c
    ensures a <= b
  {
    assert (b - a) * c == b * c - a * c;
  }

  lemma MulLess(a: int, b: int, c: int)
    requires c > 0 && a * c < b * c
    ensures a < b
  {
    assert (b - a) * c == b * c - a * c;
  }
}
